/** Selection of packages from the signed TeX Live database
    (`dependency_closure` in deploy/texlive-mirror/texlive_mirror.py). */
module DependencyClosure {
  import opened Text
  import opened Wrappers

  /** Package names and their `depend` lines. */
  type Packages = map<string, seq<string>>

  /** A dependency waiting to be followed, with the architecture it was reached under. */
  datatype Entry = Entry(name: string, arch: Option<string>)

  /** The selected packages, each with the architecture of its first visit. */
  type Visits = map<string, Option<string>>

  /** The architecture names of the `ARCHES` table. */
  const ARCHES := {"x86_64-linux", "aarch64-linux"}

  function Strip(s: string): string {
    if s == [] then s
    else if s[0] in " \t\n\r" then Strip(s[1..])
    else if s[|s| - 1] in " \t\n\r" then Strip(s[..|s| - 1])
    else s
  }

  /** Everything before the first ">=", or the whole name. */
  function BeforeVersion(s: string): string {
    if |s| < 2 then s
    else if s[..2] == ">=" then []
    else [s[0]] + BeforeVersion(s[1..])
  }

  function Normalise(s: string): string {
    if BeforeVersion(s) == s then s else Strip(BeforeVersion(s))
  }

  /** What one queue entry turns out to be. */
  datatype Reading =
    | Conditional(candidates: seq<Entry>)
    | Ignored
    | Named(package: string)
    | Missing(package: string)

  function Candidates(packages: Packages, base: string, archs: seq<string>): (c: seq<Entry>)
    ensures |c| <= |archs|
    ensures forall e :: e in c ==>
              e.arch.Some? && e.arch.value in archs && e.name == base + "." + e.arch.value && e.name in packages
    ensures forall a :: a in archs && base + "." + a in packages ==> Entry(base + "." + a, Some(a)) in c
  {
    if archs == [] then [] else
      (if base + "." + archs[0] in packages then [Entry(base + "." + archs[0], Some(archs[0]))] else [])
      + Candidates(packages, base, archs[1..])
  }

  function Read(packages: Packages, archs: seq<string>, e: Entry): Reading {
    if EndsWith(e.name, ".ARCH") then
      Conditional(Candidates(packages, e.name[..|e.name| - 5], if e.arch.Some? then [e.arch.value] else archs))
    else if EndsWith(e.name, ".windows") then Ignored
    else if StartsWith(e.name, "setting_available_architectures:")
        || StartsWith(e.name, "setting_available_architectures/") then Ignored
    else
      var name := Normalise(e.name);
      if name in packages then Named(name) else if '/' in name then Ignored else Missing(name)
  }

  predicate Known(e: Entry) {
    e.arch.Some? ==> e.arch.value in ARCHES
  }

  lemma LastOfSuffix(s: string, suffix: string)
    requires EndsWith(s, suffix) && suffix != []
    ensures s[|s| - 1] == suffix[|suffix| - 1]
  {
    assert s[|s| - |suffix|..][|suffix| - 1] == s[|s| - 1];
  }

  /** Conditional dependencies expand once: no candidate is conditional again. */
  lemma CandidateIsPlain(base: string, arch: string)
    requires arch in ARCHES
    ensures !EndsWith(base + "." + arch, ".ARCH")
  {
    if EndsWith(base + "." + arch, ".ARCH") {
      LastOfSuffix(base + "." + arch, ".ARCH");
    }
  }

  /** The packages an entry leads to, each with the architecture passed on to its own
      dependencies. */
  function Leads(packages: Packages, archs: seq<string>, e: Entry): set<Entry> {
    match Read(packages, archs, e)
    case Named(n) => {Entry(n, e.arch)}
    case Conditional(cs) => set c | c in cs
        && Read(packages, archs, c).Named? :: Entry(Read(packages, archs, c).package, c.arch)
    case _ => {}
  }

  /** Whether following the entry ends in a package the database lacks. */
  predicate Dangling(packages: Packages, archs: seq<string>, e: Entry) {
    match Read(packages, archs, e)
    case Missing(_) => true
    case Conditional(cs) => exists c :: c in cs && Read(packages, archs, c).Missing?
    case _ => false
  }

  /** The entries that must be followed once `first` has been selected, where `first` maps
      every selected package to the architecture of its first visit. */
  predicate Required(packages: Packages, roots: seq<string>, first: Visits, e: Entry) {
    || (e.name in roots && e.arch == None)
    || (exists n :: n in first && n in packages && e.name in packages[n] && e.arch == first[n])
  }

  /** A set of (package, architecture) pairs containing what the roots lead to and closed
      under dependencies: what a walk without the memo on names would have to select. */
  ghost predicate PairClosed(packages: Packages, archs: seq<string>, roots: seq<string>, pairs: set<Entry>) {
    && (forall r :: r in roots ==> Leads(packages, archs, Entry(r, None)) <= pairs)
    && (forall p, d :: p in pairs && p.name in packages && d in packages[p.name] ==>
         Leads(packages, archs, Entry(d, p.arch)) <= pairs)
  }

  /** The selection is closed relative to first-visit architectures, nothing it requires is
      missing, nothing is in it without being required, and everything in it is in every
      pair-closed set. */
  ghost predicate Selection(packages: Packages, archs: seq<string>, roots: seq<string>, first: Visits) {
    && first.Keys <= packages.Keys
    && (forall n :: n in first && first[n].Some? ==> first[n].value in ARCHES)
    && (forall e, p :: Required(packages, roots, first, e) && p in Leads(packages, archs, e) ==> p.name in first)
    && (forall n :: n in first ==>
         exists e :: Required(packages, roots, first, e) && Entry(n, first[n]) in Leads(packages, archs, e))
    && (forall pairs :: PairClosed(packages, archs, roots, pairs) ==> forall n :: n in first ==>
         Entry(n, first[n]) in pairs)
  }

  /** An entry needs no more work: it leads only to selected packages and dangles nowhere,
      or it still waits in the queue, whole or as its candidates. */
  predicate Handled(packages: Packages, archs: seq<string>, first: Visits, queue: seq<Entry>, e: Entry) {
    || e in queue
    || match Read(packages, archs, e)
       case Named(n) => n in first
       case Conditional(cs) => forall c :: c in cs ==> c in queue || PlainHandled(packages, archs, first, c)
       case Ignored => true
       case Missing(_) => false
  }

  predicate PlainHandled(packages: Packages, archs: seq<string>, first: Visits, c: Entry) {
    match Read(packages, archs, c)
    case Named(n) => n in first
    case Ignored => true
    case _ => false
  }

  /** Where a queue entry comes from: required itself, or a candidate of a required one. */
  ghost predicate Sourced(packages: Packages, archs: seq<string>, roots: seq<string>, first: Visits, q: Entry) {
    exists e :: Required(packages, roots, first, e) && FromEntry(packages, archs, e, q)
  }

  predicate FromEntry(packages: Packages, archs: seq<string>, e: Entry, q: Entry) {
    e == q || (Read(packages, archs, e).Conditional? && q in Read(packages, archs, e).candidates)
  }

  ghost predicate Inv(packages: Packages, archs: seq<string>, roots: seq<string>, first: Visits, queue: seq<Entry>) {
    && first.Keys <= packages.Keys
    && (forall n :: n in first && first[n].Some? ==> first[n].value in ARCHES)
    && (forall e :: Required(packages, roots, first, e) ==> Handled(packages, archs, first, queue, e))
    && (forall q :: q in queue ==> Known(q) && Sourced(packages, archs, roots, first, q))
    && (forall n :: n in first ==>
         exists e :: Required(packages, roots, first, e) && Entry(n, first[n]) in Leads(packages, archs, e))
    && (forall pairs :: PairClosed(packages, archs, roots, pairs) ==> forall n :: n in first ==>
         Entry(n, first[n]) in pairs)
  }

  ghost predicate KnownArchs(archs: seq<string>) {
    archs != [] && forall a :: a in archs ==> a in ARCHES
  }

  /** Popping an entry keeps every requirement handled, once the entry itself is. */
  lemma StillHandled(packages: Packages, archs: seq<string>, first: Visits, queue: seq<Entry>,
                     first': Visits, queue': seq<Entry>, e: Entry, x: Entry)
    requires KnownArchs(archs) && Known(x)
    requires Handled(packages, archs, first, queue, x) && first.Keys <= first'.Keys
    requires forall q :: q in queue && q != e ==> q in queue'
    requires Handled(packages, archs, first', queue', e)
    requires Read(packages, archs, e).Conditional? || PlainHandled(packages, archs, first', e)
    ensures Handled(packages, archs, first', queue', x)
  {
    if x !in queue && Read(packages, archs, x).Conditional? {
      forall c | c in Read(packages, archs, x).candidates
        ensures c in queue' || PlainHandled(packages, archs, first', c)
      {
        CandidateIsPlain(x.name[..|x.name| - 5], c.arch.value);
      }
    }
  }

  lemma PopHandled(packages: Packages, archs: seq<string>, roots: seq<string>, first: Visits,
                   rest: seq<Entry>, e: Entry, more: seq<Entry>)
    requires KnownArchs(archs) && Inv(packages, archs, roots, first, rest + [e])
    requires match Read(packages, archs, e)
             case Named(n) => n in first && more == []
             case Conditional(cs) => more == cs
             case Ignored => more == []
             case Missing(_) => false
    ensures Inv(packages, archs, roots, first, rest + more)
  {
    var queue := rest + [e];
    assert e in queue;
    forall x | Required(packages, roots, first, x)
      ensures Handled(packages, archs, first, rest + more, x)
    {
      StillHandled(packages, archs, first, queue, first, rest + more, e, x);
    }
    forall q | q in rest + more
      ensures Known(q) && Sourced(packages, archs, roots, first, q)
    {
      if q in rest {
        assert q in queue;
      } else {
        CandidateSourced(packages, archs, roots, first, e, q);
      }
    }
  }

  lemma CandidateSourced(packages: Packages, archs: seq<string>, roots: seq<string>, first: Visits, e: Entry, q: Entry)
    requires KnownArchs(archs) && Known(e) && Sourced(packages, archs, roots, first, e)
    requires Read(packages, archs, e).Conditional? && q in Read(packages, archs, e).candidates
    ensures Known(q) && Sourced(packages, archs, roots, first, q)
  {
    var source :| Required(packages, roots, first, source) && FromEntry(packages, archs, source, e);
    if source != e {
      CandidateArch(packages, archs, source, e);
      CandidateIsPlain(source.name[..|source.name| - 5], e.arch.value);
    }
    assert FromEntry(packages, archs, e, q);
    CandidateArch(packages, archs, e, q);
  }

  lemma CandidateArch(packages: Packages, archs: seq<string>, e: Entry, q: Entry)
    requires Read(packages, archs, e).Conditional? && q in Read(packages, archs, e).candidates
    ensures EndsWith(e.name, ".ARCH") && q.arch.Some?
    ensures q.name == e.name[..|e.name| - 5] + "." + q.arch.value
    ensures if e.arch.Some? then q.arch == e.arch else q.arch.value in archs
  {
  }

  /** A queue entry leads nowhere its source does not. */
  lemma LeadsOfSource(packages: Packages, archs: seq<string>, source: Entry, q: Entry, n: string)
    requires FromEntry(packages, archs, source, q) && Read(packages, archs, q) == Named(n)
    ensures Entry(n, q.arch) in Leads(packages, archs, source)
  {
  }

  function DependencyEntries(names: seq<string>, arch: Option<string>): seq<Entry> {
    seq(|names|, i requires 0 <= i < |names| => Entry(names[i], arch))
  }

  lemma RequiredGrows(packages: Packages, roots: seq<string>, first: Visits, n: string, arch: Option<string>, x: Entry)
    requires n !in first && n in packages
    ensures Required(packages, roots, first, x) ==> Required(packages, roots, first[n := arch], x)
    ensures Required(packages, roots, first[n := arch], x) ==>
              Required(packages, roots, first, x) || x in DependencyEntries(packages[n], arch)
    ensures x in DependencyEntries(packages[n], arch) ==>
              Required(packages, roots, first[n := arch], x) && x.arch == arch
  {
    var first' := first[n := arch];
    forall m | m in first ensures m in first' && first'[m] == first[m] { }
    var es := DependencyEntries(packages[n], arch);
    if x in es {
      var i :| 0 <= i < |es| && es[i] == x;
      assert x.name in packages[n] && n in first';
    }
    if x.name in packages[n] && x.arch == arch {
      var i :| 0 <= i < |packages[n]| && packages[n][i] == x.name;
      assert es[i] == x;
    }
  }

  lemma SelectHandled(packages: Packages, archs: seq<string>, roots: seq<string>, first: Visits,
                      rest: seq<Entry>, e: Entry, n: string, x: Entry)
    requires KnownArchs(archs) && Inv(packages, archs, roots, first, rest + [e])
    requires Read(packages, archs, e) == Named(n) && n !in first
    ensures Required(packages, roots, first[n := e.arch], x) ==>
              Handled(packages, archs, first[n := e.arch], rest + DependencyEntries(packages[n], e.arch), x)
  {
    var queue, first' := rest + [e], first[n := e.arch];
    assert e in queue;
    RequiredGrows(packages, roots, first, n, e.arch, x);
    if Required(packages, roots, first, x) {
      StillHandled(packages, archs, first, queue, first', rest + DependencyEntries(packages[n], e.arch), e, x);
    }
  }

  lemma SelectSourced(packages: Packages, archs: seq<string>, roots: seq<string>, first: Visits,
                      rest: seq<Entry>, e: Entry, n: string, q: Entry)
    requires KnownArchs(archs) && Inv(packages, archs, roots, first, rest + [e])
    requires Read(packages, archs, e) == Named(n) && n !in first
    requires q in rest + DependencyEntries(packages[n], e.arch)
    ensures Known(q) && Sourced(packages, archs, roots, first[n := e.arch], q)
  {
    assert e in rest + [e];
    if q in rest {
      assert q in rest + [e];
      var s :| Required(packages, roots, first, s) && FromEntry(packages, archs, s, q);
      RequiredGrows(packages, roots, first, n, e.arch, s);
    } else {
      RequiredGrows(packages, roots, first, n, e.arch, q);
      assert FromEntry(packages, archs, q, q);
    }
  }

  lemma SelectJustified(packages: Packages, archs: seq<string>, roots: seq<string>, first: Visits,
                        rest: seq<Entry>, e: Entry, n: string, m: string)
    requires KnownArchs(archs) && Inv(packages, archs, roots, first, rest + [e])
    requires Read(packages, archs, e) == Named(n) && n !in first && m in first[n := e.arch]
    ensures var first' := first[n := e.arch];
            && (exists x :: Required(packages, roots, first', x) && Entry(m, first'[m]) in Leads(packages, archs, x))
            && forall pairs :: PairClosed(packages, archs, roots, pairs) ==> Entry(m, first'[m]) in pairs
  {
    var x: Entry;
    if m == n {
      assert e in rest + [e];
      x :| Required(packages, roots, first, x) && FromEntry(packages, archs, x, e);
      LeadsOfSource(packages, archs, x, e, n);
      forall pairs | PairClosed(packages, archs, roots, pairs) ensures Entry(n, e.arch) in pairs {
        RequiredLeads(packages, archs, roots, first, pairs, x);
      }
    } else {
      x :| Required(packages, roots, first, x) && Entry(m, first[m]) in Leads(packages, archs, x);
    }
    RequiredGrows(packages, roots, first, n, e.arch, x);
  }

  lemma SelectPackage(packages: Packages, archs: seq<string>, roots: seq<string>, first: Visits,
                      rest: seq<Entry>, e: Entry, n: string)
    requires KnownArchs(archs) && Inv(packages, archs, roots, first, rest + [e])
    requires Read(packages, archs, e) == Named(n) && n !in first
    ensures Inv(packages, archs, roots, first[n := e.arch], rest + DependencyEntries(packages[n], e.arch))
  {
    var first', queue' := first[n := e.arch], rest + DependencyEntries(packages[n], e.arch);
    assert Known(e) by { assert e in rest + [e]; }
    forall x ensures Required(packages, roots, first', x) ==> Handled(packages, archs, first', queue', x) {
      SelectHandled(packages, archs, roots, first, rest, e, n, x);
    }
    forall q | q in queue' ensures Known(q) && Sourced(packages, archs, roots, first', q) {
      SelectSourced(packages, archs, roots, first, rest, e, n, q);
    }
    forall m | m in first'
      ensures exists x :: Required(packages, roots, first', x) && Entry(m, first'[m]) in Leads(packages, archs, x)
      ensures forall pairs :: PairClosed(packages, archs, roots, pairs) ==> Entry(m, first'[m]) in pairs
    {
      SelectJustified(packages, archs, roots, first, rest, e, n, m);
    }
  }

  lemma RequiredLeads(packages: Packages, archs: seq<string>, roots: seq<string>, first: Visits, pairs: set<Entry>,
                      e: Entry)
    requires PairClosed(packages, archs, roots, pairs) && Required(packages, roots, first, e)
    requires forall m :: m in first ==> Entry(m, first[m]) in pairs
    ensures Leads(packages, archs, e) <= pairs
  {
    if e.name in roots && e.arch == None {
      assert e == Entry(e.name, None);
    } else {
      var m :| m in first && m in packages && e.name in packages[m] && e.arch == first[m];
      assert Entry(m, first[m]) in pairs && e == Entry(e.name, first[m]);
    }
  }

  function Weight(archs: seq<string>, queue: seq<Entry>): nat {
    if queue == [] then 0
    else Weight(archs, queue[..|queue| - 1]) + if EndsWith(queue[|queue| - 1].name, ".ARCH") then |archs| + 2 else 1
  }

  lemma {:induction false} WeightAppend(archs: seq<string>, rest: seq<Entry>, more: seq<Entry>)
    requires forall e :: e in more ==> !EndsWith(e.name, ".ARCH")
    ensures Weight(archs, rest + more) == Weight(archs, rest) + |more|
    decreases |more|
  {
    if more == [] {
      assert rest + more == rest;
    } else {
      var n := |more| - 1;
      assert (rest + more)[..|rest| + n] == rest + more[..n];
      WeightAppend(archs, rest, more[..n]);
    }
  }

  lemma PopWeight(packages: Packages, archs: seq<string>, rest: seq<Entry>, e: Entry, more: seq<Entry>)
    requires KnownArchs(archs) && Known(e)
    requires more == [] || (Read(packages, archs, e) == Conditional(more))
    ensures Weight(archs, rest + more) < Weight(archs, rest + [e])
  {
    forall c | c in more ensures !EndsWith(c.name, ".ARCH") {
      CandidateIsPlain(e.name[..|e.name| - 5], c.arch.value);
    }
    WeightAppend(archs, rest, more);
    assert (rest + [e])[..|rest|] == rest;
  }

  /** An entry that needs no new package: it is dropped, or replaced by its candidates. */
  lemma Popped(packages: Packages, archs: seq<string>, roots: seq<string>, first: Visits,
               rest: seq<Entry>, e: Entry, more: seq<Entry>)
    requires KnownArchs(archs) && Inv(packages, archs, roots, first, rest + [e])
    requires match Read(packages, archs, e)
             case Named(n) => n in first && more == []
             case Conditional(cs) => more == cs
             case Ignored => more == []
             case Missing(_) => false
    ensures Inv(packages, archs, roots, first, rest + more)
    ensures Weight(archs, rest + more) < Weight(archs, rest + [e])
  {
    assert Known(e) by { assert e in rest + [e]; }
    PopWeight(packages, archs, rest, e, more);
    PopHandled(packages, archs, roots, first, rest, e, more);
  }

  /** One round: the queue's last entry is followed. */
  method Follow(packages: Packages, roots: seq<string>, archs: seq<string>, result: set<string>, queue: seq<Entry>,
                ghost first: Visits)
    returns (missing: Option<string>, result': set<string>, queue': seq<Entry>, ghost first': Visits)
    requires KnownArchs(archs) && queue != [] && result == first.Keys && Inv(packages, archs, roots, first, queue)
    ensures missing == None ==> result' == first'.Keys && Inv(packages, archs, roots, first', queue')
    ensures missing == None ==>
              (result < result' <= packages.Keys) || (result' == result && Weight(archs, queue') < Weight(archs, queue))
    ensures missing.Some? ==> first' == first
    ensures missing.Some? ==> exists e :: Required(packages, roots, first, e) && Dangling(packages, archs, e)
  {
    var n := |queue| - 1;
    var e, rest := queue[n], queue[..n];
    assert queue == rest + [e];
    missing, result', queue', first' := None, result, rest, first;
    match Read(packages, archs, e)
    case Conditional(cs) =>
      Popped(packages, archs, roots, first, rest, e, cs);
      queue' := rest + cs;
    case Ignored =>
      Popped(packages, archs, roots, first, rest, e, []);
      queue' := rest + [];
    case Missing(name) =>
      assert e in queue;
      MissingDangles(packages, archs, roots, first, e);
      missing := Some(name);
    case Named(name) =>
      if name in result {
        Popped(packages, archs, roots, first, rest, e, []);
        queue' := rest + [];
      } else {
        SelectPackage(packages, archs, roots, first, rest, e, name);
        result' := result + {name};
        first' := first[name := e.arch];
        queue' := rest + DependencyEntries(packages[name], e.arch);
      }
  }

  method DependencyClosure(packages: Packages, roots: seq<string>, archs: seq<string>)
    returns (r: Result<set<string>, string>, ghost first: Visits)
    requires KnownArchs(archs)
    ensures r.Ok? ==> r.value == first.Keys && Selection(packages, archs, roots, first)
    ensures r.Ok? ==> forall e :: Required(packages, roots, first, e) ==> !Dangling(packages, archs, e)
    ensures r.Err? ==> exists e :: Required(packages, roots, first, e) && Dangling(packages, archs, e)
    ensures first.Keys <= packages.Keys && forall n :: n in first && first[n].Some? ==> first[n].value in ARCHES
    ensures forall pairs :: PairClosed(packages, archs, roots, pairs) ==> forall n :: n in first ==>
              Entry(n, first[n]) in pairs
  {
    var result: set<string> := {};
    first := map[];
    var queue := DependencyEntries(roots, None);
    InitialInv(packages, archs, roots);
    while queue != []
      invariant result == first.Keys && Inv(packages, archs, roots, first, queue)
      decreases packages.Keys - result, Weight(archs, queue)
    {
      var missing;
      missing, result, queue, first := Follow(packages, roots, archs, result, queue, first);
      if missing.Some? { return Err(missing.value), first; }
    }
    EmptyQueueSelects(packages, archs, roots, first);
    r := Ok(result);
  }

  lemma InitialInv(packages: Packages, archs: seq<string>, roots: seq<string>)
    ensures Inv(packages, archs, roots, map[], DependencyEntries(roots, None))
  {
    var queue := DependencyEntries(roots, None);
    forall e | Required(packages, roots, map[], e) ensures e in queue {
      var i :| 0 <= i < |roots| && roots[i] == e.name;
      assert queue[i] == e;
    }
    forall q | q in queue ensures Known(q) && Sourced(packages, archs, roots, map[], q) {
      var i :| 0 <= i < |queue| && queue[i] == q;
      assert Required(packages, roots, map[], q) && FromEntry(packages, archs, q, q);
    }
  }

  lemma MissingDangles(packages: Packages, archs: seq<string>, roots: seq<string>, first: Visits, q: Entry)
    requires Sourced(packages, archs, roots, first, q) && Read(packages, archs, q).Missing?
    ensures exists e :: Required(packages, roots, first, e) && Dangling(packages, archs, e)
  {
    var e :| Required(packages, roots, first, e) && FromEntry(packages, archs, e, q);
    assert Dangling(packages, archs, e);
  }

  lemma EmptyQueueSelects(packages: Packages, archs: seq<string>, roots: seq<string>, first: Visits)
    requires Inv(packages, archs, roots, first, [])
    ensures Selection(packages, archs, roots, first)
    ensures forall e :: Required(packages, roots, first, e) ==> !Dangling(packages, archs, e)
  {
    forall e | Required(packages, roots, first, e)
      ensures !Dangling(packages, archs, e)
      ensures forall p :: p in Leads(packages, archs, e) ==> p.name in first
    {
      HandledLeads(packages, archs, first, e);
    }
  }

  lemma HandledLeads(packages: Packages, archs: seq<string>, first: Visits, e: Entry)
    requires Handled(packages, archs, first, [], e)
    ensures !Dangling(packages, archs, e)
    ensures forall p :: p in Leads(packages, archs, e) ==> p.name in first
  {
    match Read(packages, archs, e)
    case Conditional(cs) =>
      forall c | c in cs ensures PlainHandled(packages, archs, first, c) { }
    case _ =>
  }
}
