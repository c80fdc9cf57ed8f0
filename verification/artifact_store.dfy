/** Crash-safe publication of one output directory
    (packages/client-core/src/artifact-transaction.ts).

    The disk is kept as the source sees it: the output directory, the single
    `transaction` directory with its stage, backup, journal and commit marker, and
    the `gc-*` directories that wait for removal.  Every file operation first asks
    `Proceed`, which may let it happen, raise an I/O error, or never return because
    the process was killed; `fate` is arbitrary, so every contract below speaks about
    an interruption before any operation. */
module ArtifactStore {
  import opened Wrappers

  type Identity = nat
  type Tree = map<string, string>

  datatype Dir = Dir(id: Identity, files: Tree)

  datatype Journal = Journal(format: int, output: string, previous: Option<Identity>, next: Identity)

  /** A record file as `readRecord` finds it: well-formed JSON or not. */
  datatype Record<+T> = Corrupt | Stored(value: T)

  datatype Transaction = Transaction(
    stage: Option<Dir>,
    backup: Option<Dir>,
    journal: Option<Record<Journal>>,
    journalPart: bool,
    marker: Option<Record<Identity>>,
    markerPart: bool,
    strangers: set<string>)

  const EMPTY := Transaction(None, None, None, false, None, false, {})

  datatype Store = Store(output: Option<Dir>, transaction: Option<Transaction>, garbage: map<nat, Transaction>)

  /** What one file operation does to the process that issues it. */
  datatype Signal = Go | Fault | Kill

  datatype Recovery = Done | Refused | Interrupted(signal: Signal)

  datatype Publication = Saved | Failed | Killed

  function IdOf(d: Option<Dir>): Option<Identity> {
    match d
    case None => None
    case Some(dir) => Some(dir.id)
  }

  function FilesOf(d: Option<Dir>): Tree {
    match d
    case None => map[]
    case Some(dir) => dir.files
  }

  predicate ValidJournal(name: string, j: Journal) {
    j.format == 1 && j.output == name && j.previous != Some(j.next)
  }

  /** The disks on which recovery goes ahead.  A state outside this predicate has
      been touched by somebody who does not follow the protocol. */
  predicate Trusted(name: string, s: Store) {
    s.transaction.Some? ==>
      var t := s.transaction.value;
      && t.strangers == {}
      && (t.journal == None ==> t.backup == None && t.marker == None && !t.markerPart)
      && (t.journal.Some? ==> t.journal.value.Stored? && Matches(name, s.output, t, t.journal.value.value))
  }

  predicate Matches(name: string, output: Option<Dir>, t: Transaction, j: Journal) {
    && ValidJournal(name, j)
    && (t.backup.Some? ==> j.previous == IdOf(t.backup))
    && (t.stage.Some? ==> IdOf(t.stage) == Some(j.next))
    && (t.marker.Some? ==> t.marker.value == Stored(j.next) && IdOf(output) == Some(j.next) && t.stage == None)
    && (t.marker == None ==>
          if IdOf(output) == Some(j.next) then t.stage == None && (j.previous.Some? ==> t.backup.Some?)
          else if output.Some? then IdOf(output) == j.previous && t.backup == None
          else j.previous.Some? ==> t.backup.Some?)
  }

  /** The set the protocol has promised: the new one from the moment the commit
      marker is on disk, and the previous one, or none, until then. */
  function Settled(s: Store): (d: Option<Dir>) {
    if s.transaction == None || s.transaction.value.journal == None || s.transaction.value.marker.Some? then
      s.output
    else if s.transaction.value.backup.Some? then
      s.transaction.value.backup
    else if s.transaction.value.journal.value.Stored?
        && IdOf(s.output) == Some(s.transaction.value.journal.value.value.next) then
      None
    else
      s.output
  }

  predicate Committed(s: Store) {
    s.transaction.Some? && s.transaction.value.marker.Some?
  }

  /** The same disk after `rm` of the commit marker. */
  function Unmarked(s: Store): Store {
    if s.transaction == None then s else s.(transaction := Some(s.transaction.value.(marker := None)))
  }

  predicate Below(d: Option<Dir>, n: nat) {
    d.Some? ==> d.value.id < n
  }

  /** Identities and `gc-*` names still to be handed out are unused. */
  ghost predicate Fresh(s: Store, n: nat) {
    && Below(s.output, n)
    && (s.transaction.Some? ==> Below(s.transaction.value.stage, n) && Below(s.transaction.value.backup, n))
    && forall g :: g in s.garbage ==> g < n
  }

  /** Only directories named by the journal changed place: whatever left the output
      path was the journaled next set, and whatever arrived is the journaled backup. */
  ghost predicate OnlyJournaledMoves(s: Store, s': Store) {
    s'.output != s.output ==>
      && s.transaction.Some? && s.transaction.value.journal.Some?
      && s.transaction.value.journal.value.Stored?
      && !Committed(s)
      && var j := s.transaction.value.journal.value.value;
         && (s.output.Some? ==> IdOf(s.output) == Some(j.next))
         && (s'.output.Some? ==> s'.output == s.transaction.value.backup && IdOf(s'.output) == j.previous)
  }

  /** Just before the first rename: the new set is staged and the journal names both. */
  predicate Staged(name: string, s: Store) {
    && s.transaction.Some? && s.transaction.value.stage.Some?
    && IdOf(s.output) != IdOf(s.transaction.value.stage)
    && s.transaction.value == EMPTY.(
         stage := s.transaction.value.stage,
         journal := Some(Stored(Journal(1, name, IdOf(s.output), s.transaction.value.stage.value.id))))
  }

  /** What one call of `publishArtifactSet` may do to a trusted disk when nobody else
      edits the output meanwhile: the promise moves to the newly built set exactly
      when the commit marker was written, and otherwise stays where it was. */
  ghost predicate Session(name: string, s: Store, s': Store, built: Option<Tree>, r: Publication, published: bool) {
    && Trusted(name, s')
    && (published ==> built.Some? && Settled(s').Some? && FilesOf(Settled(s')) == built.value)
    && (published ==> s'.output == Settled(s') && IdOf(s'.output) != IdOf(Settled(s)))
    && (!published ==> Settled(s') == Settled(s))
    && (r == Saved ==> published)
    // A failure is reported for a published set only if taking the marker back failed too.
    && (r == Failed && published ==> Committed(s'))
  }

  /** What one call of `recover` does to a trusted disk, interrupted or not. */
  ghost predicate RecoverySession(name: string, s: Store, s': Store, r: Recovery) {
    && r != Refused
    && Trusted(name, s') && Settled(s') == Settled(s)
    && (r == Done ==> s' == Store(Settled(s), None, map[]))
  }

  /** One event in the life of an output directory; calls are serial because each holds the
      claim lock.  Between calls the user may change the output in any way, also while a
      transaction left by a death is pending. */
  datatype Event =
    | Publishing(built: Option<Tree>, result: Publication, published: bool)
    | Recovering(outcome: Recovery)
    | UserEdit(edited: Option<Dir>)

  /** On a disk recovery refuses, a call changes neither output nor transaction. */
  predicate Untouched(s: Store, s': Store) {
    s'.output == s.output && s'.transaction == s.transaction
  }

  ghost predicate Happens(name: string, s: Store, e: Event, s': Store) {
    match e
    case Publishing(built, r, published) =>
      if Trusted(name, s) then Session(name, s, s', built, r, published)
      else r != Saved && !published && Untouched(s, s')
    case Recovering(r) => if Trusted(name, s) then RecoverySession(name, s, s', r) else r != Done && Untouched(s, s')
    case UserEdit(d) => s' == s.(output := d)
  }

  ghost predicate History(name: string, states: seq<Store>, events: seq<Event>) {
    && |states| == |events| + 1
    && forall i :: 0 <= i < |events| ==> Happens(name, states[i], events[i], states[i + 1])
  }

  function TreeOf(d: Option<Dir>): Option<Tree> {
    match d
    case None => None
    case Some(dir) => Some(dir.files)
  }

  /** A pending transaction that is not committed and names its directories. */
  predicate Pending(s: Store) {
    && s.transaction.Some? && s.transaction.value.journal.Some? && s.transaction.value.journal.value.Stored?
    && s.transaction.value.marker == None
  }

  /** What an edit of the output makes of the promise: nothing while the previous set is in
      the backup, or when it works on a new set that is not committed; otherwise the edited
      directory is the user's set. */
  function AfterEdit(s: Store, d: Option<Dir>, before: Option<Tree>): Option<Tree> {
    if s.transaction.Some? && s.transaction.value.journal.Some? && s.transaction.value.marker == None
       && s.transaction.value.backup.Some? then before
    else if Pending(s) && IdOf(d) == Some(s.transaction.value.journal.value.value.next) then None
    else TreeOf(d)
  }

  /** The set a client must see after these events: the last one that was committed or
      that the user made of the output. */
  function LastCommitted(first: Option<Tree>, states: seq<Store>, events: seq<Event>): Option<Tree>
    requires |states| == |events| + 1
  {
    if events == [] then first
    else
      var n := |events| - 1;
      var before := LastCommitted(first, states[..n + 1], events[..n]);
      match events[n]
      case Publishing(built, _, true) => built
      case UserEdit(d) => AfterEdit(states[n], d, before)
      case _ => before
  }

  /** Over every history of publications, deaths, failures, recoveries and edits the promised
      set is the last committed one. */
  lemma {:induction false} HistoryKeepsLastCommitted(name: string, states: seq<Store>, events: seq<Event>)
    requires History(name, states, events)
    ensures TreeOf(Settled(states[|events|])) == LastCommitted(TreeOf(Settled(states[0])), states, events)
    decreases |events|
  {
    if events != [] {
      var n := |events| - 1;
      HistoryKeepsLastCommitted(name, states[..n + 1], events[..n]);
      assert Happens(name, states[n], events[n], states[n + 1]);
    }
  }

  /** What is then visible: after a completed recovery or a saved publication the output
      path itself holds the last committed set. */
  lemma VisibleOutputIsLastCommitted(name: string, states: seq<Store>, events: seq<Event>)
    requires History(name, states, events) && events != []
    requires || events[|events| - 1] == Recovering(Done)
             || (events[|events| - 1].Publishing? && events[|events| - 1].result == Saved)
    ensures TreeOf(states[|events|].output) == LastCommitted(TreeOf(Settled(states[0])), states, events)
  {
    HistoryKeepsLastCommitted(name, states, events);
    var n := |events| - 1;
    assert Happens(name, states[n], events[n], states[n + 1]);
  }

  /** Without edits of a pending transaction recovery is never refused. */
  lemma {:induction false} NeverRefused(name: string, states: seq<Store>, events: seq<Event>)
    requires History(name, states, events) && Trusted(name, states[0])
    requires forall i :: 0 <= i < |events| && events[i].UserEdit? ==> states[i].transaction == None
    ensures Trusted(name, states[|events|])
    decreases |events|
  {
    if events != [] {
      var n := |events| - 1;
      NeverRefused(name, states[..n + 1], events[..n]);
      assert Happens(name, states[n], events[n], states[n + 1]);
    }
  }

  /** A directory somebody else put at the output path while a transaction was pending
      makes recovery refuse. */
  lemma ForeignOutputIsRefused(name: string, s: Store, d: Dir)
    requires Trusted(name, s) && s.transaction.Some? && s.transaction.value.journal.Some?
    requires var j := s.transaction.value.journal.value.value; d.id != j.next && Some(d.id) != j.previous
    ensures !Trusted(name, s.(output := Some(d)))
  {
  }

  /** After somebody deleted the output, recovery goes ahead exactly when it still has the
      previous set (or there was none) and nothing was committed; it then restores it. */
  lemma DeletedOutput(name: string, s: Store)
    requires Trusted(name, s) && s.transaction.Some? && s.transaction.value.journal.Some?
    ensures var t, s' := s.transaction.value, s.(output := None);
            && (Trusted(name, s') <==> t.marker == None && (t.journal.value.value.previous.Some? ==> t.backup.Some?))
            && (Trusted(name, s') ==> Settled(s') == t.backup && IdOf(Settled(s')) == t.journal.value.value.previous)
  {
  }

  /** A roll-back leaves an edited output where it is, and of the transaction everything or
      nothing. */
  lemma EditedRollBack(name: string, existing: Option<Dir>, s: Store, s': Store)
    requires Staged(name, s.(output := existing)) && IdOf(s.output) != IdOf(s.transaction.value.stage)
    requires OnlyJournaledMoves(s, s')
    requires s'.output == s.output ==> s'.transaction == None || s'.transaction == s.transaction
    ensures s'.output == s.output
    ensures Trusted(name, s'.(output := existing)) && Settled(s'.(output := existing)) == existing
  {
  }

  class OutputStore {
    const name: string
    const fate: nat -> Signal
    var output: Option<Dir>
    var transaction: Option<Transaction>
    var garbage: map<nat, Transaction>
    var serial: nat
    var clock: nat

    function View(): Store
      reads this
    {
      Store(output, transaction, garbage)
    }

    ghost predicate Valid()
      reads this
    {
      Fresh(View(), serial)
    }

    /** The last of the file operations since `from` ended like this. */
    ghost predicate Caused(from: nat, signal: Signal)
      reads this`clock
    {
      from < clock && fate(clock - 1) == signal
    }

    /** At most one file operation fails, and the process is not killed. */
    ghost predicate AtMostOneFault() {
      exists k: nat :: fate(k) != Kill && forall i: nat :: i != k ==> fate(i) == Go
    }

    /** No file operation fails from here on. */
    ghost predicate Steady()
      reads this`clock
    {
      forall i: nat :: clock <= i ==> fate(i) == Go
    }

    /** `first` is the first identity the protocol will hand out; everybody else uses others. */
    constructor (name: string, fate: nat -> Signal, output: Option<Dir>, first: nat)
      requires Below(output, first)
      ensures Valid() && this.name == name && this.fate == fate
      ensures View() == Store(output, None, map[]) && serial == first
    {
      this.name, this.fate, this.output := name, fate, output;
      transaction, garbage, clock, serial := None, map[], 0, first;
    }

    method Proceed() returns (signal: Signal)
      modifies this`clock
      ensures signal == fate(old(clock)) && clock == old(clock) + 1
    {
      signal := fate(clock);
      clock := clock + 1;
    }

    /** `removeTree` on one `gc-*` directory; an interruption may leave it half empty. */
    method RemoveGarbage(g: nat) returns (signal: Signal)
      requires Valid() && g in garbage
      modifies this`garbage, this`clock
      ensures Valid()
      ensures signal == Go ==> garbage == old(garbage) - {g}
      ensures signal != Go ==> garbage.Keys == old(garbage).Keys
      ensures signal == Go <==> fate(old(clock)) == Go && fate(old(clock) + 1) == Go
      ensures fate(old(clock)) == Go && signal != Go ==> garbage == old(garbage)[g := EMPTY]
      ensures old(clock) <= clock && (signal != Go ==> Caused(old(clock), signal))
      ensures signal == Kill <==> Caused(old(clock), Kill)
    {
      signal := Proceed();
      if signal != Go { return; }
      garbage := garbage[g := EMPTY];
      signal := Proceed();
      if signal != Go { return; }
      garbage := garbage - {g};
    }

    /** One atomic rename takes the whole transaction out of the protocol's sight. */
    method DiscardTransaction() returns (signal: Signal)
      requires Valid() && transaction.Some?
      modifies this`transaction, this`garbage, this`serial, this`clock
      ensures Valid() && serial >= old(serial)
      ensures transaction == None || View() == old(View())
      ensures signal == Go ==> transaction == None && garbage == old(garbage)
      ensures old(clock) <= clock && (signal != Go ==> Caused(old(clock), signal))
      ensures signal == Kill <==> Caused(old(clock), Kill)
    {
      signal := Proceed();
      if signal != Go { return; }
      var g := serial;
      garbage, transaction, serial := garbage[g := transaction.value], None, serial + 1;
      signal := RemoveGarbage(g);
      if signal == Go {
        assert garbage == old(garbage);
      }
    }

    /** First half of `recover`: leftovers of earlier discards. */
    method SweepGarbage() returns (signal: Signal)
      requires Valid()
      modifies this`garbage, this`clock
      ensures Valid()
      ensures signal == Go ==> garbage == map[]
      ensures old(garbage) == map[] ==> signal == Go && clock == old(clock)
      ensures old(clock) <= clock && (signal != Go ==> Caused(old(clock), signal))
      ensures signal == Kill <==> Caused(old(clock), Kill)
    {
      signal := Go;
      var names := garbage.Keys;
      while names != {}
        invariant Valid() && names == garbage.Keys && signal == Go
        invariant !Caused(old(clock), Kill)
        invariant old(clock) <= clock && (old(garbage) == map[] ==> clock == old(clock) && garbage == map[])
        decreases names
      {
        var g :| g in names;
        signal := RemoveGarbage(g);
        if signal != Go { return; }
        names := names - {g};
      }
    }

    /** The two renames of a roll-back, once every check has passed. */
    method Restore(j: Journal) returns (signal: Signal)
      requires Valid() && transaction.Some? && !Committed(View())
      requires transaction.value.journal == Some(Stored(j)) && Trusted(name, View())
      modifies this`output, this`transaction, this`clock
      ensures Valid() && transaction.Some? && transaction.value.journal == Some(Stored(j))
      ensures Trusted(name, View()) && Settled(View()) == Settled(old(View())) && !Committed(View())
      ensures signal == Go ==> output == Settled(old(View()))
      ensures OnlyJournaledMoves(old(View()), View())
      ensures output == old(output) ==> transaction == old(transaction)
      ensures old(clock) <= clock && (signal != Go ==> Caused(old(clock), signal))
      ensures signal == Kill <==> Caused(old(clock), Kill)
    {
      if IdOf(output) == Some(j.next) {
        signal := Proceed();
        if signal != Go { return; }
        output, transaction := None, Some(transaction.value.(stage := output));
      }
      if j.previous.Some? && output == None {
        signal := Proceed();
        if signal != Go { return; }
        output, transaction := transaction.value.backup, Some(transaction.value.(backup := None));
      }
      signal := Go;
    }

    /** The roll-back of a transaction that was not committed. */
    method RestoreAndDiscard(j: Journal) returns (signal: Signal)
      requires Valid() && transaction.Some? && !Committed(View())
      requires transaction.value.journal == Some(Stored(j)) && Trusted(name, View())
      modifies this`output, this`transaction, this`garbage, this`serial, this`clock
      ensures Valid() && serial >= old(serial) && !Committed(View())
      ensures Trusted(name, View()) && Settled(View()) == Settled(old(View()))
      ensures signal == Go ==> View() == Store(Settled(old(View())), None, old(garbage))
      ensures OnlyJournaledMoves(old(View()), View())
      ensures output == old(output) ==> transaction == None || transaction == old(transaction)
      ensures old(clock) <= clock && (signal != Go ==> Caused(old(clock), signal))
      ensures signal == Kill <==> Caused(old(clock), Kill)
    {
      signal := Restore(j);
      if signal != Go { return; }
      signal := DiscardTransaction();
    }

    method Recover() returns (r: Recovery)
      requires Valid()
      modifies this`output, this`transaction, this`garbage, this`serial, this`clock
      ensures Valid() && serial >= old(serial)
      // Never refused on a trusted disk; nothing promised is lost wherever it is
      // interrupted; when it completes, exactly the promised set is left.
      ensures Trusted(name, old(View())) ==> RecoverySession(name, old(View()), View(), r)
      // Outside the protocol it never completes and nothing is renamed.
      ensures !Trusted(name, old(View())) ==> r != Done && output == old(output) && transaction == old(transaction)
      ensures Committed(View()) ==> Committed(old(View()))
      ensures OnlyJournaledMoves(old(View()), View())
      ensures output == old(output) ==> transaction == None || transaction == old(transaction)
      ensures r.Interrupted? ==> r.signal != Go && Caused(old(clock), r.signal)
      ensures r == Interrupted(Kill) <==> Caused(old(clock), Kill)
      ensures old(clock) <= clock
      ensures old(transaction) == None && old(garbage) == map[] ==> r == Done && clock == old(clock)
    {
      var signal := SweepGarbage();
      if signal != Go { return Interrupted(signal); }
      if transaction == None { return Done; }
      var t := transaction.value;
      if t.strangers != {} { return Refused; }
      if t.journal == None {
        if t.backup.Some? || t.marker.Some? || t.markerPart { return Refused; }
        signal := DiscardTransaction();
        return if signal == Go then Done else Interrupted(signal);
      }
      if t.journal.value.Corrupt? || !ValidJournal(name, t.journal.value.value) { return Refused; }
      var j := t.journal.value.value;
      var current, saved, staged := output, t.backup, t.stage;
      if saved.Some? && IdOf(saved) != j.previous { return Refused; }
      if staged.Some? && IdOf(staged) != Some(j.next) { return Refused; }
      if t.marker.Some? {
        if t.marker.value != Stored(j.next) || IdOf(current) != Some(j.next) || staged.Some? { return Refused; }
        signal := DiscardTransaction();
        return if signal == Go then Done else Interrupted(signal);
      }
      if IdOf(current) == Some(j.next) {
        if staged.Some? || (j.previous.Some? && saved == None) { return Refused; }
      } else if current.Some? && (IdOf(current) != j.previous || saved.Some?) {
        return Refused;
      } else if current == None && j.previous.Some? && saved == None {
        return Refused;
      }
      signal := RestoreAndDiscard(j);
      return if signal == Go then Done else Interrupted(signal);
    }

    /** `writeRecord` for the journal: a partial file, then its atomic rename. */
    method WriteJournal(j: Journal) returns (signal: Signal)
      requires transaction.Some? && transaction.value.journal == None
      modifies this`transaction, this`clock
      ensures transaction.Some?
      ensures signal == Go ==>
                transaction == Some(old(transaction).value.(journal := Some(Stored(j)), journalPart := false))
      ensures signal != Go ==>
                transaction.value == old(transaction).value.(
                  journalPart := transaction.value.journalPart, journal := transaction.value.journal)
      // Two operations make the journal visible, the third makes it durable.
      ensures transaction.value.journal ==
                if fate(old(clock)) == Go && fate(old(clock) + 1) == Go then Some(Stored(j)) else None
      ensures fate(old(clock)) == Go && fate(old(clock) + 1) != Go ==> transaction.value.journalPart
      ensures signal == Go <==> fate(old(clock)) == Go && fate(old(clock) + 1) == Go && fate(old(clock) + 2) == Go
      ensures old(clock) <= clock && (signal != Go ==> Caused(old(clock), signal))
      ensures signal == Kill <==> Caused(old(clock), Kill)
    {
      signal := Proceed();
      if signal != Go { return; }
      transaction := Some(transaction.value.(journalPart := true));
      signal := Proceed();
      if signal != Go { return; }
      transaction := Some(transaction.value.(journalPart := false, journal := Some(Stored(j))));
      signal := Proceed();
    }

    /** `writeRecord` for the commit marker.  The last operation, the directory sync,
        can still fail after the marker became visible. */
    method WriteMarker(next: Identity) returns (signal: Signal)
      requires transaction.Some? && transaction.value.marker == None
      modifies this`transaction, this`clock
      ensures transaction.Some?
      ensures signal == Go ==>
                transaction == Some(old(transaction).value.(marker := Some(Stored(next)), markerPart := false))
      ensures signal != Go ==>
                transaction.value == old(transaction).value.(
                  markerPart := transaction.value.markerPart, marker := transaction.value.marker)
      // Two operations make the marker visible, the third makes it durable.
      ensures transaction.value.marker ==
                if fate(old(clock)) == Go && fate(old(clock) + 1) == Go then Some(Stored(next)) else None
      ensures fate(old(clock)) == Go && fate(old(clock) + 1) != Go ==> transaction.value.markerPart
      ensures signal == Go <==> fate(old(clock)) == Go && fate(old(clock) + 1) == Go && fate(old(clock) + 2) == Go
      ensures old(clock) <= clock && (signal != Go ==> Caused(old(clock), signal))
      ensures signal == Kill <==> Caused(old(clock), Kill)
    {
      signal := Proceed();
      if signal != Go { return; }
      transaction := Some(transaction.value.(markerPart := true));
      signal := Proceed();
      if signal != Go { return; }
      transaction := Some(transaction.value.(markerPart := false, marker := Some(Stored(next))));
      signal := Proceed();
    }

    /** The copy of every file of the previous set into the stage. */
    method CopyFiles(original: Tree, next: Identity) returns (signal: Signal)
      requires transaction.Some? && transaction.value.stage == Some(Dir(next, map[]))
      modifies this`transaction, this`clock
      ensures transaction.Some? && transaction.value.stage.Some? && transaction.value.stage.value.id == next
      ensures transaction.value == old(transaction).value.(stage := transaction.value.stage)
      ensures signal == Go ==> transaction.value.stage.value.files == original
      ensures original != map[] && fate(old(clock)) != Go ==> signal != Go
      ensures old(clock) <= clock && (signal != Go ==> Caused(old(clock), signal))
      ensures signal == Kill <==> Caused(old(clock), Kill)
    {
      signal := Go;
      var names := original.Keys;
      var copied: Tree := map[];
      while names != {}
        invariant names <= original.Keys && copied == original - names
        invariant names == original.Keys || fate(old(clock)) == Go
        invariant names == original.Keys ==> clock == old(clock)
        invariant transaction == Some(old(transaction).value.(stage := Some(Dir(next, copied))))
        invariant old(clock) <= clock && signal == Go && !Caused(old(clock), Kill)
        decreases names
      {
        var path :| path in names;
        signal := Proceed();
        if signal != Go { return; }
        copied := copied[path := original[path]];
        names := names - {path};
        transaction := Some(transaction.value.(stage := Some(Dir(next, copied))));
      }
      assert copied == original;
    }

    /** `mkdir(transaction)`, `mkdir(stage)`, the journal, and the copy of every file
        of the previous set into the stage. */
    method PrepareStage() returns (signal: Signal, started: bool)
      requires Valid() && transaction == None
      modifies this`transaction, this`serial, this`clock
      ensures Valid() && serial >= old(serial) && started == transaction.Some?
      ensures Trusted(name, View()) && Settled(View()) == output && !Committed(View())
      ensures signal == Go ==> started && serial == old(serial) + 1
      ensures signal == Go ==>
                transaction == Some(EMPTY.(
                  stage := Some(Dir(old(serial), FilesOf(output))),
                  journal := Some(Stored(Journal(1, name, IdOf(output), old(serial))))))
      ensures old(clock) <= clock && (signal != Go ==> Caused(old(clock), signal))
      ensures signal == Kill <==> Caused(old(clock), Kill)
    {
      started := false;
      signal := Proceed();
      if signal != Go { return; }
      transaction, started := Some(EMPTY), true;
      signal := Proceed();
      if signal != Go { return; }
      var next := serial;
      transaction, serial := Some(transaction.value.(stage := Some(Dir(next, map[])))), serial + 1;
      var j := Journal(1, name, IdOf(output), next);
      signal := WriteJournal(j);
      if signal != Go { return; }
      signal := CopyFiles(FilesOf(output), next);
    }

    /** The two renames and the commit marker. */
    method Switch() returns (signal: Signal)
      requires Valid() && Staged(name, View())
      modifies this`output, this`transaction, this`clock
      ensures Valid() && Trusted(name, View()) && transaction.Some? && transaction.value.journal.Some?
      ensures Committed(View()) ==>
                output == old(transaction).value.stage && transaction.value.marker == Some(Stored(output.value.id))
      ensures !Committed(View()) ==> Settled(View()) == old(output)
      // Until the marker exists the previous set is whole at the output or the backup.
      ensures !Committed(View()) ==> output == old(output) || transaction.value.backup == old(output)
      ensures signal == Go ==> Committed(View())
      ensures Trusted(name, Unmarked(View())) && Settled(Unmarked(View())) == old(output)
      ensures old(clock) <= clock && (signal != Go ==> Caused(old(clock), signal))
      ensures signal == Kill <==> Caused(old(clock), Kill)
    {
      if output.Some? {
        signal := Proceed();
        if signal != Go { return; }
        output, transaction := None, Some(transaction.value.(backup := output));
      }
      signal := Proceed();
      if signal != Go { return; }
      output, transaction := transaction.value.stage, Some(transaction.value.(stage := None));
      signal := WriteMarker(output.value.id);
    }

    /** The `catch` block: take back our own marker, then roll back. */
    method RollBack() returns (signal: Signal)
      requires Valid() && transaction.Some?
      modifies this`output, this`transaction, this`garbage, this`serial, this`clock
      ensures Valid() && serial >= old(serial)
      ensures var s := Unmarked(old(View()));
              && (Trusted(name, s) && signal == Go ==> View() == Store(Settled(s), None, map[]))
              && (Trusted(name, s) && signal != Go ==>
                    || View() == old(View())
                    || (Trusted(name, View()) && Settled(View()) == Settled(s) && !Committed(View())))
              && (!Trusted(name, s) ==> signal != Go && output == old(output) && transaction.Some?)
      ensures Committed(View()) ==> View() == old(View())
      ensures OnlyJournaledMoves(Unmarked(old(View())), View())
      ensures output == old(output) ==>
                transaction == None || transaction in {old(transaction), Unmarked(old(View())).transaction}
      ensures old(clock) < clock
      ensures signal != Go ==>
                Caused(old(clock), signal) || (signal == Fault && !Trusted(name, Unmarked(old(View()))))
      ensures signal == Kill <==> Caused(old(clock), Kill)
    {
      signal := Proceed();
      if signal != Go { return; }
      transaction := Some(transaction.value.(marker := None));
      var r := Recover();
      signal := match r case Done => Go case Refused => Fault case Interrupted(e) => e;
    }

    /** `build` works on the private copy of the previous set; `draft` is what the stage
        holds half way through. */
    method BuildStage(build: Tree -> Option<Tree>, draft: Tree) returns (signal: Signal)
      requires transaction.Some? && transaction.value.stage.Some?
      modifies this`transaction, this`clock
      ensures transaction.Some? && transaction.value.stage.Some?
      ensures transaction == Some(old(transaction).value.(
                  stage := Some(old(transaction).value.stage.value.(files := transaction.value.stage.value.files))))
      ensures var built := build(old(transaction).value.stage.value.files);
              && (signal == Go ==> built == Some(transaction.value.stage.value.files))
              && (signal != Go ==> Caused(old(clock), signal) || (signal == Fault && built == None))
      ensures signal == Kill <==> Caused(old(clock), Kill)
      // Killed half way through it leaves its draft.
      ensures fate(old(clock)) == Go && fate(old(clock) + 1) != Go ==> transaction.value.stage.value.files == draft
      ensures old(clock) < clock
    {
      var copy := transaction.value.stage.value;
      signal := Proceed();
      if signal != Go { return; }
      transaction := Some(transaction.value.(stage := Some(copy.(files := draft))));
      var result := build(copy.files);
      signal := Proceed();
      if signal != Go { return; }
      if result == None { return Fault; }
      transaction := Some(transaction.value.(stage := Some(copy.(files := result.value))));
    }

    /** Everything before the first rename: staging, the build, and the check that nobody
        edited the output meanwhile. */
    method StageSet(build: Tree -> Option<Tree>, draft: Tree, outsider: Option<Option<Dir>>)
      returns (signal: Signal, started: bool)
      requires Valid() && transaction == None
      requires outsider.Some? ==> Below(outsider.value, serial)
      modifies this`output, this`transaction, this`serial, this`clock
      ensures Valid() && serial >= old(serial) && started == transaction.Some? && Unmarked(View()) == View()
      ensures signal == Go ==>
                && started && Staged(name, View())
                && build(FilesOf(output)) == Some(FilesOf(transaction.value.stage))
      ensures output == old(output) ==> Trusted(name, View()) && Settled(View()) == output
      ensures output != old(output) ==> outsider == Some(output) && signal == Fault && started
      ensures output != old(output) ==> (Trusted(name, View()) <==> IdOf(output) == IdOf(old(output)))
      ensures output != old(output) ==>
                Staged(name, View().(output := old(output))) && IdOf(output) != IdOf(transaction.value.stage)
      ensures Trusted(name, View()) ==> Settled(View()) == output
      ensures outsider.Some? && outsider.value != old(output) ==> signal != Go
      ensures old(Steady()) && build(FilesOf(old(output))).Some? && outsider.Some? ==> output == outsider.value
      ensures old(clock) <= clock
      ensures signal != Go ==>
                || Caused(old(clock), signal)
                || (signal == Fault && (output != old(output) || build(FilesOf(old(output))) == None))
      ensures signal == Kill <==> Caused(old(clock), Kill)
      ensures old(Steady()) ==> started && signal != Kill
      ensures old(Steady()) && outsider == None ==> (signal == Go <==> build(FilesOf(output)).Some?)
    {
      var existing := output;
      signal, started := PrepareStage();
      if signal != Go { return; }
      signal := BuildStage(build, draft);
      if signal != Go { return; }
      if outsider.Some? {
        output := outsider.value;
      }
      if output != existing {
        signal := Fault;
      }
    }

    /** The part after staging, with the `catch`. */
    method Finish() returns (r: Publication, published: bool)
      requires Valid() && Staged(name, View()) && garbage == map[]
      modifies this`output, this`transaction, this`garbage, this`serial, this`clock
      ensures Valid() && serial >= old(serial) && Trusted(name, View())
      ensures published ==> output == old(transaction).value.stage == Settled(View())
      ensures !published ==> Settled(View()) == old(output)
      ensures (r == Saved ==> published) && (r == Failed && published ==> Committed(View()))
      ensures old(clock) <= clock && (r == Killed <==> Caused(old(clock), Kill))
      ensures AtMostOneFault() && r != Saved ==>
                r == Failed && !published && View() == Store(old(output), None, map[])
      ensures old(Steady()) ==> r == Saved && transaction == None && garbage == map[]
    {
      var signal := Switch();
      if signal == Go {
        signal := DiscardTransaction();
        return (if signal == Kill then Killed else Saved), true;
      }
      if signal == Fault {
        signal := RollBack();
        signal := if signal == Kill then Kill else Fault;
      }
      published := Committed(View());
      r := if signal == Kill then Killed else Failed;
    }

    /** The part of `publishArtifactSet` after its first recovery, with the `catch`. */
    method Attempt(build: Tree -> Option<Tree>, draft: Tree, outsider: Option<Option<Dir>>)
      returns (r: Publication, published: bool)
      requires Valid() && transaction == None && garbage == map[]
      requires outsider.Some? ==> Below(outsider.value, serial)
      modifies this`output, this`transaction, this`garbage, this`serial, this`clock
      ensures Valid() && serial >= old(serial)
      ensures outsider == None || outsider.value == old(output) ==>
                Session(name, old(View()), View(), build(FilesOf(old(output))), r, published)
      ensures old(Steady()) && outsider == None ==>
                && (r == Saved <==> build(FilesOf(old(output))).Some?)
                && r != Killed && transaction == None && garbage == map[]
      ensures old(clock) <= clock && (r == Killed <==> Caused(old(clock), Kill))
      // If nothing else fails, a failure takes everything back: the previous set is at the
      // output and no trace of the transaction is left.
      ensures AtMostOneFault() && outsider == None && build(FilesOf(old(output))).Some? && r != Saved ==>
                r == Failed && !published && output == old(output) && transaction == None && garbage == map[]
      // An edit during the build is as good as one made after the call.
      ensures outsider.Some? && outsider.value != old(output) ==>
                var built, s := build(FilesOf(old(output))), View().(output := old(output));
                && !published
                && (Session(name, old(View()), View(), built, r, false)
                     || (output == outsider.value && Session(name, old(View()), s, built, r, false)))
      ensures outsider.Some? && outsider.value != old(output) && old(Steady()) && build(FilesOf(old(output))).Some? ==>
                && r == Failed && output == outsider.value
                && (transaction == None <==> IdOf(outsider.value) == IdOf(old(output)))
    {
      published := false;
      var signal, started := StageSet(build, draft, outsider);
      if signal == Go {
        r, published := Finish();
        return;
      }
      ghost var staged := View();
      if signal == Fault && started {
        signal := RollBack();
        signal := if signal == Kill then Kill else Fault;
        if staged.output != old(output) { EditedRollBack(name, old(output), staged, View()); }
      }
      published := Committed(View());
      r := if signal == Kill then Killed else Failed;
    }

    /** `outsider` is what somebody outside the protocol makes of the output path
        during the build, if anybody does. */
    method PublishArtifactSet(build: Tree -> Option<Tree>, draft: Tree, outsider: Option<Option<Dir>>)
      returns (r: Publication, published: bool)
      requires Valid()
      requires outsider.Some? ==> Below(outsider.value, serial)
      modifies this`output, this`transaction, this`garbage, this`serial, this`clock
      ensures Valid() && serial >= old(serial)
      ensures Trusted(name, old(View())) && (outsider == None || outsider.value == Settled(old(View()))) ==>
                Session(name, old(View()), View(), build(FilesOf(Settled(old(View())))), r, published)
      ensures old(Steady()) && Trusted(name, old(View())) && outsider == None ==>
                && (r == Saved <==> build(FilesOf(Settled(old(View())))).Some?)
                && r != Killed && transaction == None && garbage == map[]
      ensures r == Killed <==> Caused(old(clock), Kill)
      // One failing operation is taken back, on a disk without leftovers.
      ensures AtMostOneFault() && outsider == None && old(transaction) == None && old(garbage) == map[]
              && build(FilesOf(old(output))).Some? && r != Saved ==>
                r == Failed && !published && output == old(output) && transaction == None && garbage == map[]
      // A disk recovery would refuse is left as it is.
      ensures !Trusted(name, old(View())) ==>
                r != Saved && !published && output == old(output) && transaction == old(transaction)
      // An edit made during the build is detected: nothing is published, and the edited output
      // stays as if the edit had come after the call.
      ensures Trusted(name, old(View())) && outsider.Some? && outsider.value != Settled(old(View())) ==>
                var built, s := build(FilesOf(Settled(old(View())))), View().(output := Settled(old(View())));
                && r != Saved && !published
                && (Session(name, old(View()), View(), built, r, false)
                     || (output == outsider.value && Session(name, old(View()), s, built, r, false)))
      // Recovery removes our transaction after an edit in place, and refuses to touch a
      // directory that replaced the output or a gap left by deleting it.
      ensures Trusted(name, old(View())) && outsider.Some? && outsider.value != Settled(old(View()))
              && old(Steady()) && build(FilesOf(Settled(old(View())))).Some? ==>
                && r == Failed && output == outsider.value
                && (transaction == None <==> IdOf(outsider.value) == IdOf(Settled(old(View()))))
    {
      var recovery := Recover();
      match recovery
      case Refused => r, published := Failed, false;
      case Interrupted(e) => r, published := (if e == Kill then Killed else Failed), false;
      case Done => r, published := Attempt(build, draft, outsider);
    }
  }

  /** What can happen to the store from outside: a download, a recovery, or an edit of the
      output by its owner; `meanwhile` is an edit during the build. */
  datatype Call =
    | Saving(build: Tree -> Option<Tree>, draft: Tree, meanwhile: Option<Edit>)
    | Restoring
    | Editing(edit: Edit)

  type Edit = Option<Dir> -> Option<Dir>

  /** An edit never makes up an identity that the protocol still has to hand out. */
  ghost predicate Honest(edit: Edit, first: nat) {
    forall d, n: nat :: first <= n && Below(d, n) ==> Below(edit(d), n)
  }

  ghost predicate HonestCall(c: Call, first: nat) {
    && (c.Saving? && c.meanwhile.Some? ==> Honest(c.meanwhile.value, first))
    && (c.Editing? ==> Honest(c.edit, first))
  }

  /** The events a call amounts to. */
  ghost predicate Reports(c: Call, s: Store, events: seq<Event>) {
    match c
    case Saving(build, _, meanwhile) =>
      && (|events| == 1 || (|events| == 2 && meanwhile.Some? && events[1] == UserEdit(meanwhile.value(Settled(s)))))
      && events[0].Publishing? && events[0].built == build(FilesOf(Settled(s)))
      && (|events| == 2 ==> !events[0].published)
    case Restoring => |events| == 1 && events[0].Recovering?
    case Editing(edit) => events == [UserEdit(edit(s.output))]
  }

  /** One call; `between` are the disks between its events, if it amounts to two. */
  method Perform(m: OutputStore, c: Call, ghost first: nat) returns (ghost events: seq<Event>, ghost states: seq<Store>)
    requires m.Valid() && first <= m.serial && HonestCall(c, first)
    modifies m
    ensures m.Valid() && m.serial >= old(m.serial)
    ensures Reports(c, old(m.View()), events) && History(m.name, states, events)
    ensures states[0] == old(m.View()) && states[|events|] == m.View()
  {
    var s := m.View();
    match c
    case Saving(build, draft, meanwhile) =>
      SettledBelow(s, m.serial);
      ghost var built := build(FilesOf(Settled(s)));
      var outsider := if meanwhile.Some? then Some(meanwhile.value(Settled(s))) else None;
      var r, published := m.PublishArtifactSet(build, draft, outsider);
      ghost var s' := m.View();
      events, states := [Publishing(built, r, published)], [s, s'];
      if !Happens(m.name, s, events[0], s') {
        events := events + [UserEdit(outsider.value)];
        states := [s, s'.(output := Settled(s)), s'];
      }
    case Restoring =>
      var r := m.Recover();
      events, states := [Recovering(r)], [s, m.View()];
    case Editing(edit) =>
      m.output := edit(m.output);
      events, states := [UserEdit(m.output)], [s, m.View()];
  }

  lemma SettledBelow(s: Store, n: nat)
    requires Fresh(s, n)
    ensures Below(Settled(s), n)
  {
  }

  /** Two histories in a row. */
  lemma Continued(name: string, states: seq<Store>, events: seq<Event>, more: seq<Store>, next: seq<Event>)
    requires History(name, states, events) && History(name, more, next) && more[0] == states[|events|]
    ensures History(name, states + more[1..], events + next)
    ensures (states + more[1..])[0] == states[0]
    ensures (states + more[1..])[|events + next|] == more[|next|]
  {
    var all, done := states + more[1..], events + next;
    forall i | 0 <= i < |done| ensures Happens(name, all[i], done[i], all[i + 1]) {
      if i < |events| {
        assert Happens(name, states[i], events[i], states[i + 1]);
      } else {
        var k := i - |events|;
        assert all[i] == more[k] && all[i + 1] == more[k + 1];
        assert Happens(name, more[k], next[k], more[k + 1]);
      }
    }
  }

  function Joined(parts: seq<seq<Event>>): seq<Event> {
    if parts == [] then [] else Joined(parts[..|parts| - 1]) + parts[|parts| - 1]
  }

  /** Call `i` amounts to part `i` of the events, from the disk the parts before it lead to. */
  ghost predicate Accounts(calls: seq<Call>, states: seq<Store>, parts: seq<seq<Event>>, i: nat)
    requires i < |calls| && i < |parts|
  {
    var k := |Joined(parts[..i])|;
    k < |states| && Reports(calls[i], states[k], parts[i])
  }

  lemma StillAccounts(calls: seq<Call>, states: seq<Store>, parts: seq<seq<Event>>, i: nat,
                      more: seq<Store>, events: seq<Event>)
    requires i < |calls| && i < |parts| && Accounts(calls, states, parts, i)
    ensures Accounts(calls, states + more, parts + [events], i)
  {
    assert (parts + [events])[..i] == parts[..i];
  }

  /** Every life of a store, whoever is killed or edits the output when, is a history of the
      events its calls amount to; so what histories promise holds of the real calls. */
  method PerformAll(m: OutputStore, calls: seq<Call>)
    returns (ghost states: seq<Store>, ghost parts: seq<seq<Event>>)
    requires m.Valid() && forall c :: c in calls ==> HonestCall(c, m.serial)
    modifies m
    ensures m.Valid() && |parts| == |calls|
    ensures forall i :: 0 <= i < |calls| ==> Accounts(calls, states, parts, i)
    ensures History(m.name, states, Joined(parts)) && states[0] == old(m.View()) && states[|Joined(parts)|] == m.View()
    ensures TreeOf(Settled(m.View())) == LastCommitted(TreeOf(Settled(old(m.View()))), states, Joined(parts))
  {
    ghost var first := m.serial;
    states, parts := [m.View()], [];
    for i := 0 to |calls|
      invariant m.Valid() && first <= m.serial && |parts| == i
      invariant forall k :: 0 <= k < i ==> Accounts(calls, states, parts, k)
      invariant History(m.name, states, Joined(parts))
      invariant states[0] == old(m.View()) && states[|Joined(parts)|] == m.View()
    {
      ghost var events, more := Perform(m, calls[i], first);
      Continued(m.name, states, Joined(parts), more, events);
      assert (parts + [events])[..i] == parts;
      forall k | 0 <= k < i ensures Accounts(calls, states + more[1..], parts + [events], k) {
        StillAccounts(calls, states, parts, k, more[1..], events);
      }
      states, parts := states + more[1..], parts + [events];
    }
    HistoryKeepsLastCommitted(m.name, states, Joined(parts));
  }
}
