/** What the selection for several architectures loses, measured against the selections for
    each of them alone. */
module ClosureArchitectures {
  import opened Text
  import opened Wrappers
  import opened DependencyClosure
  import opened ClosureTheorems

  /** What `dependency_closure` returns when only this architecture is enabled
      (`SingleArchitectureIsLeastClosure`). */
  ghost predicate IsClosure(packages: Packages, arch: string, roots: seq<string>, names: set<string>) {
    && NameClosed(packages, arch, roots, names)
    && forall other :: NameClosed(packages, arch, roots, other) ==> names <= other
  }

  function NamesOf(pairs: set<Entry>): set<string> {
    set p | p in pairs :: p.name
  }

  /** Nothing is lost: the names cover a set of (package, architecture) pairs that contains
      the roots and is closed under dependencies. */
  ghost predicate Complete(packages: Packages, archs: seq<string>, roots: seq<string>, names: set<string>) {
    exists pairs :: PairClosed(packages, archs, roots, pairs) && NamesOf(pairs) <= names
  }

  /** Every pair a walk over these architectures can meet. */
  function AllPairs(packages: Packages, archs: seq<string>): set<Entry> {
    (set n | n in packages :: Entry(n, None)) + (set n, a | n in packages && a in archs :: Entry(n, Some(a)))
  }

  ghost predicate InEvery(packages: Packages, archs: seq<string>, roots: seq<string>, p: Entry) {
    forall pairs {:trigger PairClosed(packages, archs, roots, pairs)} ::
      PairClosed(packages, archs, roots, pairs) ==> p in pairs
  }

  /** What a walk that kept architectures apart would visit: the least closed set of pairs. */
  ghost function Needed(packages: Packages, archs: seq<string>, roots: seq<string>): set<Entry> {
    set p | p in AllPairs(packages, archs) && InEvery(packages, archs, roots, p)
  }

  lemma LeadsWithin(packages: Packages, archs: seq<string>, e: Entry, p: Entry)
    requires p in Leads(packages, archs, e) && (e.arch.Some? ==> e.arch.value in archs)
    ensures p in AllPairs(packages, archs)
  {
  }

  lemma AllIsClosed(packages: Packages, archs: seq<string>, roots: seq<string>)
    ensures PairClosed(packages, archs, roots, AllPairs(packages, archs))
  {
    var all := AllPairs(packages, archs);
    forall r, p | r in roots && p in Leads(packages, archs, Entry(r, None)) ensures p in all {
      LeadsWithin(packages, archs, Entry(r, None), p);
    }
    forall q, d, p | q in all && q.name in packages && d in packages[q.name]
                     && p in Leads(packages, archs, Entry(d, q.arch))
      ensures p in all
    {
      LeadsWithin(packages, archs, Entry(d, q.arch), p);
    }
  }

  lemma NeededIsLeast(packages: Packages, archs: seq<string>, roots: seq<string>, pairs: set<Entry>)
    requires PairClosed(packages, archs, roots, pairs)
    ensures Needed(packages, archs, roots) <= pairs
  {
  }

  lemma NeededHas(packages: Packages, archs: seq<string>, roots: seq<string>, p: Entry)
    ensures p in Needed(packages, archs, roots) <==> InEvery(packages, archs, roots, p)
  {
    AllIsClosed(packages, archs, roots);
  }

  lemma NeededIsClosed(packages: Packages, archs: seq<string>, roots: seq<string>)
    ensures PairClosed(packages, archs, roots, Needed(packages, archs, roots))
  {
    var needed := Needed(packages, archs, roots);
    forall r, p | r in roots && p in Leads(packages, archs, Entry(r, None)) ensures p in needed {
      NeededHas(packages, archs, roots, p);
    }
    forall q, d, p | q in needed && q.name in packages && d in packages[q.name]
                     && p in Leads(packages, archs, Entry(d, q.arch))
      ensures p in needed
    {
      forall pairs | PairClosed(packages, archs, roots, pairs) ensures p in pairs { assert q in pairs; }
      NeededHas(packages, archs, roots, p);
    }
  }

  /** The closures for each enabled architecture alone. */
  ghost predicate Closures(packages: Packages, archs: seq<string>, roots: seq<string>, per: map<string, set<string>>) {
    forall a :: a in archs ==> a in per && IsClosure(packages, a, roots, per[a])
  }

  /** A candidate reads the same whatever architectures are enabled. */
  lemma CandidateReads(packages: Packages, archs: seq<string>, others: seq<string>, base: string, a: string)
    requires a in ARCHES
    ensures var c := Entry(base + "." + a, Some(a)); Read(packages, archs, c) == Read(packages, others, c)
  {
    CandidateIsPlain(base, a);
  }

  lemma ConditionalInto(packages: Packages, archs: seq<string>, d: string, h: Option<string>, p: Entry)
    requires KnownArchs(archs) && EndsWith(d, ".ARCH") && (h.Some? ==> h.value in archs)
    requires p in Leads(packages, archs, Entry(d, h))
    ensures p.arch.Some? && p.arch.value in archs && h in {None, p.arch}
    ensures p.name in Targets(packages, p.arch.value, d)
  {
    var base, list := d[..|d| - 5], if h.Some? then [h.value] else archs;
    var c :| c in Candidates(packages, base, list) && Read(packages, archs, c).Named?
             && p == Entry(Read(packages, archs, c).package, c.arch);
    var a := c.arch.value;
    CandidateReads(packages, archs, [a], base, a);
    assert c in Candidates(packages, base, [a]);
    assert Read(packages, [a], Entry(d, None)) == Conditional(Candidates(packages, base, [a]));
    assert p in Leads(packages, [a], Entry(d, None));
  }

  lemma ConditionalOut(packages: Packages, archs: seq<string>, d: string, h: Option<string>, a: string, n: string)
    requires KnownArchs(archs) && EndsWith(d, ".ARCH") && a in archs && h in {None, Some(a)}
    requires n in Targets(packages, a, d)
    ensures Entry(n, Some(a)) in Leads(packages, archs, Entry(d, h))
  {
    var base, list := d[..|d| - 5], if h.Some? then [h.value] else archs;
    var p :| p in Leads(packages, [a], Entry(d, None)) && p.name == n;
    var c :| c in Candidates(packages, base, [a]) && Read(packages, [a], c).Named?
             && p == Entry(Read(packages, [a], c).package, c.arch);
    CandidateReads(packages, archs, [a], base, a);
    assert c in Candidates(packages, base, list);
    assert Read(packages, archs, Entry(d, h)) == Conditional(Candidates(packages, base, list));
  }

  /** A plain dependency keeps the architecture and leads to the same package under any. */
  lemma PlainLeads(packages: Packages, archs: seq<string>, d: string, h: Option<string>, a: string)
    requires !EndsWith(d, ".ARCH")
    ensures forall p :: p in Leads(packages, archs, Entry(d, h)) ==> p.arch == h && p.name in Targets(packages, a, d)
    ensures forall n :: n in Targets(packages, a, d) ==> Entry(n, h) in Leads(packages, archs, Entry(d, h))
  {
    match Read(packages, archs, Entry(d, h))
    case Named(n) =>
      assert Entry(n, None) in Leads(packages, [a], Entry(d, None));
    case _ =>
  }

  /** Pairs of the closures: a package under each architecture that needs it, and without one
      if all of them do. */
  function UnionPairs(packages: Packages, archs: seq<string>, per: map<string, set<string>>): set<Entry>
    requires forall a :: a in archs ==> a in per
  {
    (set a, n | a in archs && n in per[a] :: Entry(n, Some(a)))
    + (set n | n in packages && forall a :: a in archs ==> n in per[a] :: Entry(n, None))
  }

  lemma LeadsIntoUnion(packages: Packages, archs: seq<string>, per: map<string, set<string>>,
                       d: string, h: Option<string>, p: Entry)
    requires KnownArchs(archs) && (forall a :: a in archs ==> a in per)
    requires h.Some? ==> h.value in archs && Targets(packages, h.value, d) <= per[h.value]
    requires h == None ==> forall a :: a in archs ==> Targets(packages, a, d) <= per[a]
    requires p in Leads(packages, archs, Entry(d, h))
    ensures p in UnionPairs(packages, archs, per)
  {
    LeadsToPackages(packages, archs, Entry(d, h), p);
    if EndsWith(d, ".ARCH") {
      ConditionalInto(packages, archs, d, h, p);
    } else {
      forall a | a in archs ensures p.arch == h && p.name in Targets(packages, a, d) {
        PlainLeads(packages, archs, d, h, a);
      }
      assert archs[0] in archs;
    }
  }

  /** Taking the closures of all architectures together loses nothing. */
  lemma UnionIsClosed(packages: Packages, archs: seq<string>, roots: seq<string>, per: map<string, set<string>>)
    requires KnownArchs(archs) && Closures(packages, archs, roots, per)
    ensures PairClosed(packages, archs, roots, UnionPairs(packages, archs, per))
  {
    var pairs := UnionPairs(packages, archs, per);
    forall a | a in archs ensures NameClosed(packages, a, roots, per[a]) {
      assert IsClosure(packages, a, roots, per[a]);
    }
    forall r, p | r in roots && p in Leads(packages, archs, Entry(r, None)) ensures p in pairs {
      LeadsIntoUnion(packages, archs, per, r, None, p);
    }
    forall q, d, p | q in pairs && q.name in packages && d in packages[q.name]
                     && p in Leads(packages, archs, Entry(d, q.arch))
      ensures p in pairs
    {
      LeadsIntoUnion(packages, archs, per, d, q.arch, p);
    }
  }

  /** The names a closed set of pairs has for one architecture. */
  function NamesFor(pairs: set<Entry>, a: string): set<string> {
    set p | p in pairs && p.arch in {None, Some(a)} :: p.name
  }

  lemma NeededForPair(packages: Packages, archs: seq<string>, pairs: set<Entry>, a: string,
                      d: string, h: Option<string>, n: string)
    requires KnownArchs(archs) && a in archs && h in {None, Some(a)} && n in Targets(packages, a, d)
    requires Leads(packages, archs, Entry(d, h)) <= pairs
    ensures n in NamesFor(pairs, a)
  {
    if EndsWith(d, ".ARCH") {
      ConditionalOut(packages, archs, d, h, a, n);
      assert Entry(n, Some(a)) in pairs;
    } else {
      PlainLeads(packages, archs, d, h, a);
      assert Entry(n, h) in pairs;
    }
  }

  /** Every closed set of pairs has at least each architecture's closure. */
  lemma ClosureIsNeeded(packages: Packages, archs: seq<string>, roots: seq<string>, pairs: set<Entry>,
                        a: string, names: set<string>)
    requires KnownArchs(archs) && a in archs && PairClosed(packages, archs, roots, pairs)
    requires IsClosure(packages, a, roots, names)
    ensures names <= NamesFor(pairs, a)
  {
    forall r, n | r in roots && n in Targets(packages, a, r) ensures n in NamesFor(pairs, a) {
      NeededForPair(packages, archs, pairs, a, r, None, n);
    }
    forall m, d, n | m in NamesFor(pairs, a) && m in packages && d in packages[m] && n in Targets(packages, a, d)
      ensures n in NamesFor(pairs, a)
    {
      var p :| p in pairs && p.arch in {None, Some(a)} && p.name == m;
      NeededForPair(packages, archs, pairs, a, d, p.arch, n);
    }
    assert NameClosed(packages, a, roots, NamesFor(pairs, a));
  }

  /** The selection for several architectures contains nothing that none of them needs. */
  lemma SelectionWithinUnion(packages: Packages, archs: seq<string>, roots: seq<string>,
                             first: Visits, per: map<string, set<string>>, n: string)
    requires KnownArchs(archs) && Closures(packages, archs, roots, per)
    requires Selection(packages, archs, roots, first) && n in first
    ensures exists a :: a in archs && n in per[a]
  {
    UnionIsClosed(packages, archs, roots, per);
    assert Entry(n, first[n]) in UnionPairs(packages, archs, per);
    assert archs[0] in archs;
  }

  /** What completeness means: to have every needed package, or, the same, everything the walk
      for each single architecture selects. */
  lemma CompleteMeans(packages: Packages, archs: seq<string>, roots: seq<string>, names: set<string>,
                      per: map<string, set<string>>)
    requires KnownArchs(archs) && Closures(packages, archs, roots, per)
    ensures Complete(packages, archs, roots, names) <==> NamesOf(Needed(packages, archs, roots)) <= names
    ensures Complete(packages, archs, roots, names) <==> forall a :: a in archs ==> per[a] <= names
  {
    var needed := Needed(packages, archs, roots);
    NeededIsClosed(packages, archs, roots);
    if Complete(packages, archs, roots, names) {
      var pairs :| PairClosed(packages, archs, roots, pairs) && NamesOf(pairs) <= names;
      NeededIsLeast(packages, archs, roots, pairs);
      forall p | p in needed ensures p.name in names { assert p.name in NamesOf(pairs); }
    }
    if NamesOf(needed) <= names {
      forall a | a in archs ensures per[a] <= names { ClosureIsNeeded(packages, archs, roots, needed, a, per[a]); }
    }
    if forall a :: a in archs ==> per[a] <= names {
      UnionIsClosed(packages, archs, roots, per);
      var pairs := UnionPairs(packages, archs, per);
      forall p | p in pairs ensures p.name in names { assert archs[0] in archs; }
      assert NamesOf(pairs) <= names;
    }
  }

  /** A package is wanted under two architectures, or under one and for none in particular, and
      one of its conditional dependencies has a package for the other one.  Whichever visit
      comes first, the memo on names may keep that package out. */
  ghost predicate Conflict(packages: Packages, archs: seq<string>, pairs: set<Entry>,
                           n: string, d: string, a: string, b: string) {
    && a in archs && a != b && Entry(n, Some(b)) in pairs && n in NamesFor(pairs, a)
    && n in packages && d in packages[n] && EndsWith(d, ".ARCH") && Targets(packages, a, d) != {}
  }

  ghost predicate NoConflict(packages: Packages, archs: seq<string>, pairs: set<Entry>) {
    forall n, d, a, b :: !Conflict(packages, archs, pairs, n, d, a, b)
  }

  /** A selected package's line is followed for this architecture by its first visit, or what
      it stands for is selected anyway. */
  ghost predicate Followed(packages: Packages, first: Visits, n: string, d: string, a: string) {
    n in first && (first[n] in {None, Some(a)} || Targets(packages, a, d) <= first.Keys)
  }

  /** A conditional dependency of a pair whose name is selected, for this architecture. */
  predicate Line(packages: Packages, archs: seq<string>, first: Visits, q: Entry, d: string, a: string) {
    && q.name in first && q.name in packages && d in packages[q.name] && EndsWith(d, ".ARCH")
    && a in archs && q.arch in {None, Some(a)}
  }

  ghost predicate AllFollowed(packages: Packages, archs: seq<string>, pairs: set<Entry>, first: Visits) {
    forall q, d, a :: q in pairs && Line(packages, archs, first, q, d, a) ==> Followed(packages, first, q.name, d, a)
  }

  lemma FollowedLeads(packages: Packages, archs: seq<string>, roots: seq<string>, first: Visits,
                      n: string, d: string, h: Option<string>, p: Entry)
    requires KnownArchs(archs) && Selection(packages, archs, roots, first)
    requires n in first && n in packages && d in packages[n] && p in Leads(packages, archs, Entry(d, h))
    requires h.Some? ==> h.value in archs
    requires EndsWith(d, ".ARCH") && p.arch.Some? ==> Followed(packages, first, n, d, p.arch.value)
    ensures p.name in first
  {
    assert Required(packages, roots, first, Entry(d, first[n]));
    if EndsWith(d, ".ARCH") {
      ConditionalInto(packages, archs, d, h, p);
      if first[n] in {None, p.arch} {
        ConditionalOut(packages, archs, d, first[n], p.arch.value, p.name);
      }
    } else {
      PlainLeads(packages, archs, d, h, archs[0]);
      PlainLeads(packages, archs, d, first[n], archs[0]);
      assert Entry(p.name, first[n]) in Leads(packages, archs, Entry(d, first[n]));
    }
  }

  lemma FollowedStep(packages: Packages, archs: seq<string>, roots: seq<string>, first: Visits,
                     q: Entry, d: string, p: Entry)
    requires KnownArchs(archs) && Selection(packages, archs, roots, first)
    requires AllFollowed(packages, archs, Needed(packages, archs, roots), first)
    requires q in Needed(packages, archs, roots) && q.name in first && q.name in packages && d in packages[q.name]
    requires p in Leads(packages, archs, Entry(d, q.arch))
    ensures p in Needed(packages, archs, roots) && p.name in first
  {
    NeededIsClosed(packages, archs, roots);
    assert q in AllPairs(packages, archs);
    if EndsWith(d, ".ARCH") {
      ConditionalInto(packages, archs, d, q.arch, p);
      assert Line(packages, archs, first, q, d, p.arch.value);
    }
    FollowedLeads(packages, archs, roots, first, q.name, d, q.arch, p);
  }

  /** If the lines of all selected packages are followed, nothing is lost. */
  lemma FollowedIsComplete(packages: Packages, archs: seq<string>, roots: seq<string>, first: Visits)
    requires KnownArchs(archs) && Selection(packages, archs, roots, first)
    requires AllFollowed(packages, archs, Needed(packages, archs, roots), first)
    ensures Complete(packages, archs, roots, first.Keys)
  {
    var needed := Needed(packages, archs, roots);
    NeededIsClosed(packages, archs, roots);
    var pairs := set q | q in needed && q.name in first;
    forall r, p | r in roots && p in Leads(packages, archs, Entry(r, None)) ensures p in pairs {
      assert Required(packages, roots, first, Entry(r, None));
    }
    forall q, d, p | q in pairs && q.name in packages && d in packages[q.name]
                     && p in Leads(packages, archs, Entry(d, q.arch))
      ensures p in pairs
    {
      FollowedStep(packages, archs, roots, first, q, d, p);
    }
    assert PairClosed(packages, archs, roots, pairs) && NamesOf(pairs) <= first.Keys;
  }

  lemma FirstIsNeeded(packages: Packages, archs: seq<string>, roots: seq<string>, first: Visits, n: string)
    requires KnownArchs(archs) && Selection(packages, archs, roots, first) && n in first
    ensures Entry(n, first[n]) in Needed(packages, archs, roots)
    ensures first[n].Some? ==> first[n].value in archs
  {
    NeededIsClosed(packages, archs, roots);
    assert Entry(n, first[n]) in AllPairs(packages, archs);
  }

  lemma NoConflictFollows(packages: Packages, archs: seq<string>, roots: seq<string>, first: Visits,
                          q: Entry, d: string, a: string)
    requires KnownArchs(archs) && Selection(packages, archs, roots, first)
    requires NoConflict(packages, archs, Needed(packages, archs, roots))
    requires q in Needed(packages, archs, roots) && Line(packages, archs, first, q, d, a)
    ensures Followed(packages, first, q.name, d, a)
  {
    FirstIsNeeded(packages, archs, roots, first, q.name);
    if first[q.name] !in {None, Some(a)} {
      var b := first[q.name].value;
      assert !Conflict(packages, archs, Needed(packages, archs, roots), q.name, d, a, b);
    }
  }

  /** A condition on database and roots under which nothing is lost, in whatever order the
      queue is served. */
  lemma NoConflictLosesNothing(packages: Packages, archs: seq<string>, roots: seq<string>, first: Visits)
    requires KnownArchs(archs) && Selection(packages, archs, roots, first)
    requires NoConflict(packages, archs, Needed(packages, archs, roots))
    ensures Complete(packages, archs, roots, first.Keys)
  {
    assert AllFollowed(packages, archs, Needed(packages, archs, roots), first) by {
      forall q, d, a | q in Needed(packages, archs, roots) && Line(packages, archs, first, q, d, a)
        ensures Followed(packages, first, q.name, d, a)
      {
        NoConflictFollows(packages, archs, roots, first, q, d, a);
      }
    }
    FollowedIsComplete(packages, archs, roots, first);
  }

  /** No root leads to `m`. */
  ghost predicate NotForRoots(packages: Packages, archs: seq<string>, roots: seq<string>, m: string) {
    forall r, p :: r in roots && p in Leads(packages, archs, Entry(r, None)) ==> p.name != m
  }

  predicate LineLeads(packages: Packages, archs: seq<string>, q: Entry, d: string, p: Entry) {
    q.name in packages && d in packages[q.name] && p in Leads(packages, archs, Entry(d, q.arch))
  }

  /** Package `m`, wanted for `a` only, is a dependency of nothing but `n`. */
  ghost predicate PrivateTo(packages: Packages, archs: seq<string>, roots: seq<string>,
                            n: string, m: string, a: string) {
    forall q, d, p ::
      q in Needed(packages, archs, roots) && LineLeads(packages, archs, q, d, p) && p.name == m ==>
        q.name == n && p.arch == Some(a)
  }

  /** `n` is never reached for no architecture in particular, and what its line stands for is
      private to it and there for every enabled architecture. */
  ghost predicate Separate(packages: Packages, archs: seq<string>, roots: seq<string>, n: string, d: string) {
    && Entry(n, None) !in Needed(packages, archs, roots)
    && forall a :: a in archs ==>
         Targets(packages, a, d) != {} && forall m :: m in Targets(packages, a, d) ==>
           NotForRoots(packages, archs, roots, m) && PrivateTo(packages, archs, roots, n, m, a)
  }

  /** Where a package that is no root's comes from. */
  lemma SelectedBy(packages: Packages, archs: seq<string>, roots: seq<string>, first: Visits, m: string)
    returns (x: string, d: string)
    requires Selection(packages, archs, roots, first) && NotForRoots(packages, archs, roots, m) && m in first
    ensures x in first && LineLeads(packages, archs, Entry(x, first[x]), d, Entry(m, first[m]))
  {
    var e :| Required(packages, roots, first, e) && Entry(m, first[m]) in Leads(packages, archs, e);
    assert e.arch == None ==> e == Entry(e.name, None);
    d := e.name;
    x :| x in first && x in packages && e.name in packages[x] && e.arch == first[x];
    assert e == Entry(d, first[x]);
  }

  /** The package is there only if the first visit was for its architecture. */
  lemma PrivateNeedsVisit(packages: Packages, archs: seq<string>, roots: seq<string>, first: Visits,
                          n: string, m: string, a: string)
    requires KnownArchs(archs) && Selection(packages, archs, roots, first)
    requires NotForRoots(packages, archs, roots, m) && PrivateTo(packages, archs, roots, n, m, a) && m in first
    requires Entry(n, None) !in Needed(packages, archs, roots)
    ensures n in first && first[n] == Some(a)
  {
    var x, d := SelectedBy(packages, archs, roots, first, m);
    FirstIsNeeded(packages, archs, roots, first, x);
    assert x == n && first[m] == Some(a);
    LeadsInherit(packages, archs, Entry(d, first[x]), Entry(m, first[m]));
  }

  lemma LeadsInherit(packages: Packages, archs: seq<string>, e: Entry, p: Entry)
    requires p in Leads(packages, archs, e) && e.arch.Some?
    ensures p.arch == e.arch
  {
  }

  /** At such a package the dependencies of the first visit's architecture are selected, and
      those of any other are not. */
  lemma OneArchitectureSelected(packages: Packages, archs: seq<string>, roots: seq<string>, first: Visits,
                                n: string, d: string, h: string)
    requires KnownArchs(archs) && Selection(packages, archs, roots, first)
    requires Separate(packages, archs, roots, n, d) && n in first && h in archs
    requires n in packages && d in packages[n] && EndsWith(d, ".ARCH")
    ensures first[n].Some?
    ensures forall m :: m in Targets(packages, h, d) ==> (m in first <==> first[n] == Some(h))
  {
    FirstIsNeeded(packages, archs, roots, first, n);
    if first[n] == Some(h) {
      assert Required(packages, roots, first, Entry(d, first[n]));
      forall m | m in Targets(packages, h, d) ensures m in first {
        ConditionalOut(packages, archs, d, first[n], h, m);
      }
    } else {
      forall m | m in Targets(packages, h, d) ensures m !in first {
        assert PrivateTo(packages, archs, roots, n, m, h);
        if m in first { PrivateNeedsVisit(packages, archs, roots, first, n, m, h); }
      }
    }
  }

  lemma TargetsAreNeeded(packages: Packages, archs: seq<string>, roots: seq<string>, n: string, d: string, h: string,
                         m: string)
    requires KnownArchs(archs) && h in archs && n in NamesFor(Needed(packages, archs, roots), h)
    requires n in packages && d in packages[n] && EndsWith(d, ".ARCH") && m in Targets(packages, h, d)
    ensures Entry(m, Some(h)) in Needed(packages, archs, roots)
  {
    NeededIsClosed(packages, archs, roots);
    var q :| q in Needed(packages, archs, roots) && q.arch in {None, Some(h)} && q.name == n;
    ConditionalOut(packages, archs, d, q.arch, h, m);
  }

  lemma CompleteHasNeeded(packages: Packages, archs: seq<string>, roots: seq<string>, names: set<string>, p: Entry)
    requires Complete(packages, archs, roots, names) && p in Needed(packages, archs, roots)
    ensures p.name in names
  {
    var pairs :| PairClosed(packages, archs, roots, pairs) && NamesOf(pairs) <= names;
    NeededIsLeast(packages, archs, roots, pairs);
    assert p.name in NamesOf(pairs);
  }

  /** An architecture under which such a package is needed, but was not visited first. */
  lemma SkippedArchitecture(packages: Packages, archs: seq<string>, roots: seq<string>, first: Visits,
                            n: string, d: string, h: string)
    requires KnownArchs(archs) && Selection(packages, archs, roots, first)
    requires Separate(packages, archs, roots, n, d) && n in first && h in archs && first[n] != Some(h)
    requires n in NamesFor(Needed(packages, archs, roots), h)
    requires n in packages && d in packages[n] && EndsWith(d, ".ARCH")
    ensures !Complete(packages, archs, roots, first.Keys)
  {
    OneArchitectureSelected(packages, archs, roots, first, n, d, h);
    var m :| m in Targets(packages, h, d);
    TargetsAreNeeded(packages, archs, roots, n, d, h, m);
    if Complete(packages, archs, roots, first.Keys) {
      CompleteHasNeeded(packages, archs, roots, first.Keys, Entry(m, Some(h)));
    }
  }

  lemma ConflictEnds(packages: Packages, archs: seq<string>, roots: seq<string>, n: string, d: string,
                     a: string, b: string)
    requires Conflict(packages, archs, Needed(packages, archs, roots), n, d, a, b)
    ensures a in archs && b in archs && a != b && n in packages && d in packages[n] && EndsWith(d, ".ARCH")
    ensures Entry(n, Some(b)) in Needed(packages, archs, roots)
    ensures forall h :: h in {a, b} ==> n in NamesFor(Needed(packages, archs, roots), h)
  {
    assert Entry(n, Some(b)) in AllPairs(packages, archs);
  }

  /** A conflict at such a package loses one of its dependencies in every order. */
  lemma ConflictLosesAPackage(packages: Packages, archs: seq<string>, roots: seq<string>, first: Visits,
                              n: string, d: string, a: string, b: string)
    requires KnownArchs(archs) && Selection(packages, archs, roots, first)
    requires Conflict(packages, archs, Needed(packages, archs, roots), n, d, a, b)
    requires Separate(packages, archs, roots, n, d)
    ensures !Complete(packages, archs, roots, first.Keys)
  {
    ConflictEnds(packages, archs, roots, n, d, a, b);
    if Complete(packages, archs, roots, first.Keys) {
      CompleteHasNeeded(packages, archs, roots, first.Keys, Entry(n, Some(b)));
      var h := if first[n] == Some(a) then b else a;
      SkippedArchitecture(packages, archs, roots, first, n, d, h);
    }
  }

  /** Databases whose conditional dependencies are private to packages with an architecture of
      their own. */
  ghost predicate AllSeparate(packages: Packages, archs: seq<string>, roots: seq<string>) {
    var needed := Needed(packages, archs, roots);
    forall q, d :: q in needed && q.arch.Some? && q.name in packages && d in packages[q.name] && EndsWith(d, ".ARCH")
      ==> Separate(packages, archs, roots, q.name, d)
  }

  /** For these the condition is exact, whatever the order of the queue. */
  lemma CompleteExactlyWithoutConflict(packages: Packages, archs: seq<string>, roots: seq<string>, first: Visits)
    requires KnownArchs(archs) && Selection(packages, archs, roots, first)
    requires AllSeparate(packages, archs, roots)
    ensures Complete(packages, archs, roots, first.Keys) <==>
            NoConflict(packages, archs, Needed(packages, archs, roots))
  {
    var needed := Needed(packages, archs, roots);
    if NoConflict(packages, archs, needed) {
      NoConflictLosesNothing(packages, archs, roots, first);
    } else if Complete(packages, archs, roots, first.Keys) {
      var n, d, a, b :| Conflict(packages, archs, needed, n, d, a, b);
      assert Entry(n, Some(b)) in needed;
      ConflictLosesAPackage(packages, archs, roots, first, n, d, a, b);
    }
  }

  /** A check of the result: each package that a selected package's conditional dependencies
      stand for is selected. */
  ghost predicate ConditionalsSelected(packages: Packages, archs: seq<string>, names: set<string>) {
    forall n, d, a :: n in names && n in packages && d in packages[n] && EndsWith(d, ".ARCH") && a in archs ==>
      Targets(packages, a, d) <= names
  }

  lemma SelectedConditionalsSuffice(packages: Packages, archs: seq<string>, roots: seq<string>, first: Visits)
    requires KnownArchs(archs) && Selection(packages, archs, roots, first)
    requires ConditionalsSelected(packages, archs, first.Keys)
    ensures Complete(packages, archs, roots, first.Keys)
  {
    assert AllFollowed(packages, archs, Needed(packages, archs, roots), first) by {
      forall q, d, a | Line(packages, archs, first, q, d, a) ensures Followed(packages, first, q.name, d, a) {
        assert Targets(packages, a, d) <= first.Keys;
      }
    }
    FollowedIsComplete(packages, archs, roots, first);
  }
}
