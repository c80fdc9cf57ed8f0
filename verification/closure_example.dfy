/** Databases for which enabling two architectures at once loses a package. */
module ClosureExample {
  import opened Text
  import opened Wrappers
  import opened DependencyClosure
  import opened ClosureTheorems
  import opened ClosureArchitectures

  /** A collection with a tool that has a binary for each architecture; both binaries need a
      library that in turn has a binary for each architecture.  The collection names the tool
      and possibly the library; the other lines are conditional, or name the library. */
  datatype Tower = Tower(
    x: string, a: string,
    root: string, tool: string, lib: string,
    toolLine: string, libLine: string,
    toolX: string, toolA: string, libX: string, libA: string)
  {
    predicate Apart() {
      && x != a && tool != lib && root !in {tool, lib} && toolLine != libLine
      && toolLine !in {root, tool, lib} && libLine !in {root, tool, lib}
      && toolX !in {root, tool, lib, toolA, libX, libA} && toolA !in {root, tool, lib, libX, libA}
      && libX !in {root, tool, lib, libA} && libA !in {root, tool, lib}
    }

    predicate Lines(lines: seq<string>) {
      tool in lines && forall d :: d in lines ==> d in {tool, lib}
    }

    function Database(lines: seq<string>): Packages {
      map[root := lines, tool := [toolLine], toolX := [lib], toolA := [lib], lib := [libLine], libX := [], libA := []]
    }

    /** The package has this line. */
    predicate HasLine(lines: seq<string>, n: string, d: string) {
      || (n == root && d in lines) || (n == tool && d == toolLine)
      || (n in {toolX, toolA} && d == lib) || (n == lib && d == libLine)
    }

    /** One of the two binaries, for the architecture already chosen, if it was. */
    predicate Fans(binaryX: string, binaryA: string, h: Option<string>, p: Entry) {
      || (h in {None, Some(x)} && p == Entry(binaryX, Some(x)))
      || (h in {None, Some(a)} && p == Entry(binaryA, Some(a)))
    }

    predicate Follows(d: string, h: Option<string>, p: Entry) {
      if d == toolLine then Fans(toolX, toolA, h, p)
      else if d == libLine then Fans(libX, libA, h, p)
      else p == Entry(d, h)
    }

    predicate IsLine(d: string) {
      d in {root, tool, lib, toolLine, libLine}
    }

    function Archs(): seq<string> {
      [x, a]
    }

    predicate IsArch(h: Option<string>) {
      h in {None, Some(x), Some(a)}
    }
  }

  datatype Aspect = Names | Rows | Reads | Ends

  ghost predicate Has(t: Tower, packages: Packages, lines: seq<string>, aspect: Aspect) {
    match aspect
    case Names => t.Apart() && t.Lines(lines)
    case Rows => packages == t.Database(lines)
    case Reads => ReadsAsMeant(t, packages)
    case Ends =>
      && EndsWith(t.libLine, ".ARCH")
      && Targets(packages, t.x, t.libLine) == {t.libX} && Targets(packages, t.a, t.libLine) == {t.libA}
  }

  ghost predicate ReadsAsMeant(t: Tower, packages: Packages) {
    forall d, h, p :: t.IsLine(d) && t.IsArch(h) ==>
      (p in Leads(packages, t.Archs(), Entry(d, h)) <==> t.Follows(d, h, p))
  }

  /** The names are as described, and the lines read as they are meant. */
  ghost predicate Shape(t: Tower, packages: Packages, lines: seq<string>) {
    forall aspect :: Has(t, packages, lines, aspect)
  }

  /** The pairs of a walk that keeps architectures apart. */
  predicate Walked(t: Tower, lines: seq<string>, p: Entry) {
    || (p.arch == None && p.name in {t.root, t.tool})
    || (p.arch == None && p.name == t.lib && t.lib in lines)
    || (p.arch == Some(t.x) && p.name in {t.toolX, t.lib, t.libX})
    || (p.arch == Some(t.a) && p.name in {t.toolA, t.lib, t.libA})
  }

  function WalkPairs(t: Tower, lines: seq<string>): set<Entry> {
    set p | p in AllPairs(t.Database(lines), t.Archs()) && Walked(t, lines, p)
  }

  lemma LineOf(t: Tower, lines: seq<string>, n: string, d: string)
    requires t.Apart() && t.Lines(lines)
    ensures n in t.Database(lines) && d in t.Database(lines)[n] <==> t.HasLine(lines, n, d)
    ensures t.HasLine(lines, n, d) ==> t.IsLine(d)
  {
  }

  /** The walk stays within its pairs. */
  lemma WalkFollows(t: Tower, lines: seq<string>, q: Entry, d: string, p: Entry)
    requires t.Apart() && t.Lines(lines) && Walked(t, lines, q)
    requires q.name in t.Database(lines) && d in t.Database(lines)[q.name]
    ensures t.IsLine(d) && t.IsArch(q.arch)
    ensures t.Follows(d, q.arch, p) ==> Walked(t, lines, p)
    ensures t.Follows(d, q.arch, p) && p.name == t.libX ==> q.name == t.lib && p.arch == Some(t.x)
    ensures t.Follows(d, q.arch, p) && p.name == t.libA ==> q.name == t.lib && p.arch == Some(t.a)
  {
    LineOf(t, lines, q.name, d);
  }

  lemma WalkLeads(t: Tower, packages: Packages, lines: seq<string>, q: Entry, d: string, p: Entry)
    requires Shape(t, packages, lines) && Walked(t, lines, q) && q.name in packages && d in packages[q.name]
    requires p in Leads(packages, t.Archs(), Entry(d, q.arch))
    ensures Walked(t, lines, p)
    ensures p.name == t.libX ==> q.name == t.lib && p.arch == Some(t.x)
    ensures p.name == t.libA ==> q.name == t.lib && p.arch == Some(t.a)
  {
    assert Has(t, packages, lines, Names);
    assert Has(t, packages, lines, Rows);
    assert Has(t, packages, lines, Reads);
    WalkFollows(t, lines, q, d, p);
  }

  lemma RootLeads(t: Tower, packages: Packages, lines: seq<string>)
    requires Shape(t, packages, lines)
    ensures forall p :: p in Leads(packages, t.Archs(), Entry(t.root, None)) <==> p == Entry(t.root, None)
  {
    assert Has(t, packages, lines, Reads) && Has(t, packages, lines, Names);
    assert t.IsLine(t.root) && t.IsArch(None);
  }

  lemma InWalk(t: Tower, lines: seq<string>, p: Entry)
    requires t.Lines(lines) && Walked(t, lines, p)
    ensures p in WalkPairs(t, lines)
  {
    assert p.name in t.Database(lines) && t.x in t.Archs() && t.a in t.Archs();
  }

  lemma WalkIsClosed(t: Tower, packages: Packages, lines: seq<string>)
    requires Shape(t, packages, lines)
    ensures PairClosed(packages, t.Archs(), [t.root], WalkPairs(t, lines))
  {
    assert Has(t, packages, lines, Names);
    RootLeads(t, packages, lines);
    InWalk(t, lines, Entry(t.root, None));
    var pairs := WalkPairs(t, lines);
    assert forall q :: q in pairs ==> Walked(t, lines, q);
    forall q, d, p | q in pairs && q.name in packages && d in packages[q.name]
                     && p in Leads(packages, t.Archs(), Entry(d, q.arch))
      ensures p in pairs
    {
      WalkLeads(t, packages, lines, q, d, p);
      InWalk(t, lines, p);
    }
  }

  /** The pair is in every closed set. */
  ghost predicate Sure(t: Tower, packages: Packages, p: Entry) {
    InEvery(packages, t.Archs(), [t.root], p)
  }

  lemma Reached(t: Tower, packages: Packages, lines: seq<string>, q: Entry, d: string, p: Entry)
    requires Shape(t, packages, lines) && Sure(t, packages, q)
    requires q.name in packages && d in packages[q.name] && t.IsLine(d) && t.IsArch(q.arch)
    requires t.Follows(d, q.arch, p)
    ensures Sure(t, packages, p)
  {
    assert Has(t, packages, lines, Reads);
    forall pairs | PairClosed(packages, t.Archs(), [t.root], pairs) ensures p in pairs {
      assert q in pairs;
      assert p in Leads(packages, t.Archs(), Entry(d, q.arch));
    }
  }

  lemma RootReached(t: Tower, packages: Packages, lines: seq<string>)
    requires Shape(t, packages, lines)
    ensures Sure(t, packages, Entry(t.root, None))
  {
    RootLeads(t, packages, lines);
    assert t.root in [t.root];
  }

  lemma ToolReached(t: Tower, packages: Packages, lines: seq<string>, d: string)
    requires Shape(t, packages, lines) && d in lines
    ensures Sure(t, packages, Entry(d, None))
  {
    assert Has(t, packages, lines, Names);
    assert Has(t, packages, lines, Rows);
    RootReached(t, packages, lines);
    Reached(t, packages, lines, Entry(t.root, None), d, Entry(d, None));
  }

  lemma LibraryReached(t: Tower, packages: Packages, lines: seq<string>, binary: Entry)
    requires Shape(t, packages, lines) && binary in {Entry(t.toolX, Some(t.x)), Entry(t.toolA, Some(t.a))}
    ensures Sure(t, packages, binary) && Sure(t, packages, Entry(t.lib, binary.arch))
  {
    assert Has(t, packages, lines, Names);
    assert Has(t, packages, lines, Rows);
    ToolReached(t, packages, lines, t.tool);
    Reached(t, packages, lines, Entry(t.tool, None), t.toolLine, binary);
    Reached(t, packages, lines, binary, t.lib, Entry(t.lib, binary.arch));
  }

  lemma WalkIsReached(t: Tower, packages: Packages, lines: seq<string>, p: Entry)
    requires Shape(t, packages, lines) && Walked(t, lines, p)
    ensures Sure(t, packages, p)
  {
    assert Has(t, packages, lines, Names);
    assert Has(t, packages, lines, Rows);
    if p == Entry(t.root, None) {
      RootReached(t, packages, lines);
    } else if p.arch == None {
      ToolReached(t, packages, lines, p.name);
    } else {
      LibraryReached(t, packages, lines, Entry(if p.arch == Some(t.x) then t.toolX else t.toolA, p.arch));
      if p.name in {t.libX, t.libA} { Reached(t, packages, lines, Entry(t.lib, p.arch), t.libLine, p); }
    }
  }

  /** That walk visits exactly what is needed. */
  lemma WalkIsNeeded(t: Tower, packages: Packages, lines: seq<string>)
    requires Shape(t, packages, lines)
    ensures Needed(packages, t.Archs(), [t.root]) == WalkPairs(t, lines)
  {
    WalkIsClosed(t, packages, lines);
    NeededIsLeast(packages, t.Archs(), [t.root], WalkPairs(t, lines));
    forall p | p in WalkPairs(t, lines) ensures p in Needed(packages, t.Archs(), [t.root]) {
      WalkIsReached(t, packages, lines, p);
      NeededHas(packages, t.Archs(), [t.root], p);
    }
  }

  /** The library is needed for both architectures, and has a binary for each. */
  lemma LibraryConflict(t: Tower, packages: Packages, lines: seq<string>)
    requires Shape(t, packages, lines)
    ensures Conflict(packages, t.Archs(), Needed(packages, t.Archs(), [t.root]), t.lib, t.libLine, t.a, t.x)
  {
    assert Has(t, packages, lines, Names);
    assert Has(t, packages, lines, Rows);
    assert Has(t, packages, lines, Ends);
    WalkIsNeeded(t, packages, lines);
    InWalk(t, lines, Entry(t.lib, Some(t.a)));
    InWalk(t, lines, Entry(t.lib, Some(t.x)));
    assert t.a in t.Archs() && t.libLine in packages[t.lib];
  }

  lemma NeededIsWalked(t: Tower, packages: Packages, lines: seq<string>, q: Entry)
    requires Shape(t, packages, lines) && q in Needed(packages, t.Archs(), [t.root])
    ensures Walked(t, lines, q)
  {
    WalkIsNeeded(t, packages, lines);
  }

  lemma PrivateLine(t: Tower, packages: Packages, lines: seq<string>, q: Entry, d: string, p: Entry)
    requires Shape(t, packages, lines) && q in Needed(packages, t.Archs(), [t.root])
    requires LineLeads(packages, t.Archs(), q, d, p)
    ensures p.name == t.libX ==> q.name == t.lib && p.arch == Some(t.x)
    ensures p.name == t.libA ==> q.name == t.lib && p.arch == Some(t.a)
  {
    NeededIsWalked(t, packages, lines, q);
    WalkLeads(t, packages, lines, q, d, p);
  }

  lemma LibraryIsPrivate(t: Tower, packages: Packages, lines: seq<string>, m: string, a: string)
    requires Shape(t, packages, lines) && ((m == t.libX && a == t.x) || (m == t.libA && a == t.a))
    ensures PrivateTo(packages, t.Archs(), [t.root], t.lib, m, a)
  {
    forall q, d, p | q in Needed(packages, t.Archs(), [t.root]) && LineLeads(packages, t.Archs(), q, d, p)
                     && p.name == m
      ensures q.name == t.lib && p.arch == Some(a)
    {
      PrivateLine(t, packages, lines, q, d, p);
    }
  }

  lemma LibraryNotForRoots(t: Tower, packages: Packages, lines: seq<string>, m: string)
    requires Shape(t, packages, lines) && m in {t.libX, t.libA}
    ensures NotForRoots(packages, t.Archs(), [t.root], m)
  {
    assert Has(t, packages, lines, Names);
    RootLeads(t, packages, lines);
  }

  lemma LineIsPrivate(t: Tower, packages: Packages, lines: seq<string>, a: string)
    requires Shape(t, packages, lines) && a in {t.x, t.a}
    ensures Targets(packages, a, t.libLine) != {}
    ensures forall m :: m in Targets(packages, a, t.libLine) ==>
              NotForRoots(packages, t.Archs(), [t.root], m) && PrivateTo(packages, t.Archs(), [t.root], t.lib, m, a)
  {
    assert Has(t, packages, lines, Ends);
    var binary := if a == t.x then t.libX else t.libA;
    assert binary in Targets(packages, a, t.libLine);
    LibraryNotForRoots(t, packages, lines, binary);
    LibraryIsPrivate(t, packages, lines, binary, a);
  }

  lemma LibraryNotPlain(t: Tower, packages: Packages, lines: seq<string>)
    requires Shape(t, packages, lines) && t.lib !in lines
    ensures Entry(t.lib, None) !in Needed(packages, t.Archs(), [t.root])
  {
    assert Has(t, packages, lines, Names);
    if Entry(t.lib, None) in Needed(packages, t.Archs(), [t.root]) {
      NeededIsWalked(t, packages, lines, Entry(t.lib, None));
    }
  }

  /** Unless the collection names the library, it is reached for an architecture only. */
  lemma LibraryIsSeparate(t: Tower, packages: Packages, lines: seq<string>)
    requires Shape(t, packages, lines) && t.lib !in lines
    ensures Separate(packages, t.Archs(), [t.root], t.lib, t.libLine)
  {
    LibraryNotPlain(t, packages, lines);
    LineIsPrivate(t, packages, lines, t.x);
    LineIsPrivate(t, packages, lines, t.a);
  }

  lemma FirstWalked(t: Tower, packages: Packages, lines: seq<string>, first: Visits, n: string)
    requires Shape(t, packages, lines) && Selection(packages, t.Archs(), [t.root], first) && n in first
    ensures Walked(t, lines, Entry(n, first[n]))
  {
    WalkIsClosed(t, packages, lines);
    assert Entry(n, first[n]) in WalkPairs(t, lines);
  }

  lemma NextSelected(t: Tower, packages: Packages, lines: seq<string>, first: Visits, n: string, d: string, p: Entry)
    requires Shape(t, packages, lines) && Selection(packages, t.Archs(), [t.root], first)
    requires n in first && t.HasLine(lines, n, d) && t.IsArch(first[n]) && t.Follows(d, first[n], p)
    ensures p.name in first && Walked(t, lines, Entry(p.name, first[p.name]))
  {
    assert Has(t, packages, lines, Names) && Has(t, packages, lines, Rows) && Has(t, packages, lines, Reads);
    LineOf(t, lines, n, d);
    assert Required(packages, [t.root], first, Entry(d, first[n]));
    assert p in Leads(packages, t.Archs(), Entry(d, first[n]));
    FirstWalked(t, packages, lines, first, p.name);
  }

  lemma RootSelected(t: Tower, packages: Packages, lines: seq<string>, first: Visits)
    requires Shape(t, packages, lines) && Selection(packages, t.Archs(), [t.root], first)
    ensures t.root in first && first[t.root] == None
  {
    assert Has(t, packages, lines, Names);
    assert Required(packages, [t.root], first, Entry(t.root, None));
    RootLeads(t, packages, lines);
    assert Entry(t.root, None) in Leads(packages, t.Archs(), Entry(t.root, None));
    FirstWalked(t, packages, lines, first, t.root);
  }

  lemma ToolSelected(t: Tower, packages: Packages, lines: seq<string>, first: Visits)
    requires Shape(t, packages, lines) && Selection(packages, t.Archs(), [t.root], first)
    ensures t.tool in first && first[t.tool] == None
  {
    assert Has(t, packages, lines, Names);
    RootSelected(t, packages, lines, first);
    NextSelected(t, packages, lines, first, t.root, t.tool, Entry(t.tool, None));
  }

  lemma LibrarySelected(t: Tower, packages: Packages, lines: seq<string>, first: Visits)
    requires Shape(t, packages, lines) && Selection(packages, t.Archs(), [t.root], first)
    ensures t.lib in first
  {
    assert Has(t, packages, lines, Names);
    ToolSelected(t, packages, lines, first);
    NextSelected(t, packages, lines, first, t.tool, t.toolLine, Entry(t.toolX, Some(t.x)));
    NextSelected(t, packages, lines, first, t.toolX, t.lib, Entry(t.lib, Some(t.x)));
  }

  /** The memo keeps one visit per name: with both architectures enabled the selection has the
      library's binary for exactly one of them, although both are needed. */
  lemma TwoArchitecturesLoseAPackage(t: Tower, packages: Packages, lines: seq<string>, first: Visits)
    requires Shape(t, packages, lines) && t.lib !in lines && KnownArchs(t.Archs())
    requires Selection(packages, t.Archs(), [t.root], first)
    ensures (t.libX in first) != (t.libA in first)
    ensures !Complete(packages, t.Archs(), [t.root], first.Keys)
  {
    OneBinary(t, packages, lines, first);
    LibraryIsSeparate(t, packages, lines);
    LibraryConflict(t, packages, lines);
    ConflictLosesAPackage(packages, t.Archs(), [t.root], first, t.lib, t.libLine, t.a, t.x);
  }

  lemma OneBinary(t: Tower, packages: Packages, lines: seq<string>, first: Visits)
    requires Shape(t, packages, lines) && t.lib !in lines && KnownArchs(t.Archs())
    requires Selection(packages, t.Archs(), [t.root], first)
    ensures (t.libX in first) != (t.libA in first)
  {
    LibrarySelected(t, packages, lines, first);
    assert Separate(packages, t.Archs(), [t.root], t.lib, t.libLine) by { LibraryIsSeparate(t, packages, lines); }
    FirstWalked(t, packages, lines, first, t.lib);
    assert Has(t, packages, lines, Ends) && Has(t, packages, lines, Names);
    LibraryBinary(t, packages, lines, first, t.libX, t.x);
    LibraryBinary(t, packages, lines, first, t.libA, t.a);
  }

  lemma LibraryLine(t: Tower, packages: Packages, lines: seq<string>)
    requires Shape(t, packages, lines)
    ensures t.lib in packages && t.libLine in packages[t.lib] && EndsWith(t.libLine, ".ARCH")
  {
    assert Has(t, packages, lines, Names) && Has(t, packages, lines, Rows) && Has(t, packages, lines, Ends);
    LineOf(t, lines, t.lib, t.libLine);
  }

  lemma LibraryBinary(t: Tower, packages: Packages, lines: seq<string>, first: Visits, binary: string, a: string)
    requires Shape(t, packages, lines) && KnownArchs(t.Archs()) && t.lib in first && a in t.Archs()
    requires Selection(packages, t.Archs(), [t.root], first)
    requires Separate(packages, t.Archs(), [t.root], t.lib, t.libLine)
    requires binary in Targets(packages, a, t.libLine)
    ensures binary in first <==> first[t.lib] == Some(a)
  {
    LibraryLine(t, packages, lines);
    OneArchitectureSelected(packages, t.Archs(), [t.root], first, t.lib, t.libLine, a);
  }

  /** A walk that reaches the library first under this architecture. */
  function Visited(t: Tower, h: Option<string>): Visits {
    map[t.root := None, t.tool := None, t.toolX := Some(t.x), t.toolA := Some(t.a), t.lib := h]
    + (if h in {None, Some(t.x)} then map[t.libX := Some(t.x)] else map[])
    + (if h in {None, Some(t.a)} then map[t.libA := Some(t.a)] else map[])
  }

  lemma VisitedNames(t: Tower, lines: seq<string>, h: Option<string>, n: string)
    requires t.Apart() && t.IsArch(h)
    ensures n in Visited(t, h) <==>
              || n in {t.root, t.tool, t.toolX, t.toolA, t.lib}
              || (n == t.libX && h in {None, Some(t.x)}) || (n == t.libA && h in {None, Some(t.a)})
    ensures n in Visited(t, h) && Walked(t, lines, Entry(t.lib, h)) ==> Walked(t, lines, Entry(n, Visited(t, h)[n]))
    ensures Visited(t, h)[t.root] == None && Visited(t, h)[t.tool] == None && Visited(t, h)[t.lib] == h
    ensures Visited(t, h)[t.toolX] == Some(t.x) && Visited(t, h)[t.toolA] == Some(t.a)
  {
  }

  lemma VisitedNext(t: Tower, packages: Packages, lines: seq<string>, h: Option<string>, e: Entry, p: Entry)
    requires Shape(t, packages, lines) && Walked(t, lines, Entry(t.lib, h))
    requires Required(packages, [t.root], Visited(t, h), e) && p in Leads(packages, t.Archs(), e)
    ensures p.name in Visited(t, h)
  {
    assert Has(t, packages, lines, Names);
    assert Has(t, packages, lines, Rows);
    assert Has(t, packages, lines, Reads);
    RootLeads(t, packages, lines);
    if !(e.name in [t.root] && e.arch == None) {
      var n :| n in Visited(t, h) && n in packages && e.name in packages[n] && e.arch == Visited(t, h)[n];
      VisitedNames(t, lines, h, n);
      LineOf(t, lines, n, e.name);
      VisitedNames(t, lines, h, p.name);
      assert e == Entry(e.name, e.arch) && t.Follows(e.name, e.arch, p);
    } else {
      assert e == Entry(t.root, None);
    }
  }

  /** The entry through which a name was reached. */
  function Source(t: Tower, lines: seq<string>, h: Option<string>, n: string): Entry {
    if n == t.root then Entry(t.root, None)
    else if n == t.tool then Entry(t.tool, None)
    else if n in {t.toolX, t.toolA} then Entry(t.toolLine, None)
    else if n == t.lib then Entry(t.lib, h)
    else Entry(t.libLine, h)
  }

  lemma VisitedSource(t: Tower, packages: Packages, lines: seq<string>, h: Option<string>, n: string)
    requires Shape(t, packages, lines) && Walked(t, lines, Entry(t.lib, h)) && n in Visited(t, h)
    ensures Required(packages, [t.root], Visited(t, h), Source(t, lines, h, n))
    ensures Entry(n, Visited(t, h)[n]) in Leads(packages, t.Archs(), Source(t, lines, h, n))
  {
    assert Has(t, packages, lines, Names);
    assert Has(t, packages, lines, Rows);
    assert Has(t, packages, lines, Reads);
    VisitedNames(t, lines, h, n);
    var e := Source(t, lines, h, n);
    var from := if n == t.tool then t.root else if n in {t.toolX, t.toolA} then t.tool
                else if n == t.lib then (if h == None then t.root else if h == Some(t.x) then t.toolX else t.toolA)
                else t.lib;
    if n != t.root { assert e.name in packages[from] && Visited(t, h)[from] == e.arch; }
    assert t.IsLine(e.name) && t.IsArch(e.arch) && t.Follows(e.name, e.arch, Entry(n, Visited(t, h)[n]));
  }

  lemma VisitedIsSelection(t: Tower, packages: Packages, lines: seq<string>, h: Option<string>)
    requires Shape(t, packages, lines) && KnownArchs(t.Archs()) && Walked(t, lines, Entry(t.lib, h))
    ensures Selection(packages, t.Archs(), [t.root], Visited(t, h))
  {
    assert Has(t, packages, lines, Names);
    assert Has(t, packages, lines, Rows);
    var first := Visited(t, h);
    forall n | n in first
      ensures n in packages && (first[n].Some? ==> first[n].value in ARCHES) && Sure(t, packages, Entry(n, first[n]))
      ensures exists e :: Required(packages, [t.root], first, e) && Entry(n, first[n]) in Leads(packages, t.Archs(), e)
    {
      VisitedNames(t, lines, h, n);
      WalkIsReached(t, packages, lines, Entry(n, first[n]));
      VisitedSource(t, packages, lines, h, n);
      assert t.x in t.Archs() && t.a in t.Archs();
    }
    forall e, p | Required(packages, [t.root], first, e) && p in Leads(packages, t.Archs(), e) ensures p.name in first {
      VisitedNext(t, packages, lines, h, e, p);
    }
  }

  lemma PlainVisitIsComplete(t: Tower, packages: Packages, lines: seq<string>)
    requires Shape(t, packages, lines)
    ensures Complete(packages, t.Archs(), [t.root], Visited(t, None).Keys)
  {
    assert Has(t, packages, lines, Names);
    WalkIsClosed(t, packages, lines);
    forall p | p in WalkPairs(t, lines) ensures p.name in Visited(t, None) { VisitedNames(t, lines, None, p.name); }
    assert NamesOf(WalkPairs(t, lines)) <= Visited(t, None).Keys;
  }

  lemma ArchVisitIsIncomplete(t: Tower, packages: Packages, lines: seq<string>)
    requires Shape(t, packages, lines)
    ensures !Complete(packages, t.Archs(), [t.root], Visited(t, Some(t.x)).Keys)
  {
    assert Has(t, packages, lines, Names);
    var lost := Entry(t.libA, Some(t.a));
    WalkIsReached(t, packages, lines, lost);
    NeededHas(packages, t.Archs(), [t.root], lost);
    VisitedNames(t, lines, Some(t.x), t.libA);
    if Complete(packages, t.Archs(), [t.root], Visited(t, Some(t.x)).Keys) {
      CompleteHasNeeded(packages, t.Archs(), [t.root], Visited(t, Some(t.x)).Keys, lost);
    }
  }

  /** If the collection names the library too, the order of the queue decides: reached from the
      collection first nothing is lost, reached from a binary first one package is. */
  lemma OrderDecides(t: Tower, packages: Packages, lines: seq<string>)
    requires Shape(t, packages, lines) && KnownArchs(t.Archs()) && t.lib in lines
    ensures var s := Visited(t, None);
            Selection(packages, t.Archs(), [t.root], s) && Complete(packages, t.Archs(), [t.root], s.Keys)
    ensures var s := Visited(t, Some(t.x));
            Selection(packages, t.Archs(), [t.root], s) && !Complete(packages, t.Archs(), [t.root], s.Keys)
  {
    VisitedIsSelection(t, packages, lines, None);
    VisitedIsSelection(t, packages, lines, Some(t.x));
    PlainVisitIsComplete(t, packages, lines);
    ArchVisitIsIncomplete(t, packages, lines);
  }

  /** Such a database: the collection "collection-basic" with packages "t" and "l". */
  const TOWER := Tower(
    X, A, "collection-basic", "t", "l", PerArch("t"), PerArch("l"),
    Binary("t", X), Binary("t", A), Binary("l", X), Binary("l", A))

  lemma TowerApart()
    ensures TOWER.Apart()
  {
    var t := TOWER;
    assert |X| == 12 && |A| == 13 && |t.root| == 16 && |t.toolLine| == |t.libLine| == 6;
    assert |t.toolX| == |t.libX| == 14 && |t.toolA| == |t.libA| == 15;
    assert t.toolX[0] == t.toolA[0] == t.toolLine[0] == 't' && t.libX[0] == t.libA[0] == t.libLine[0] == 'l';
  }

  lemma TowerPlain(lines: seq<string>, d: string, h: Option<string>)
    requires d in {TOWER.root, TOWER.tool, TOWER.lib}
    ensures Leads(TOWER.Database(lines), [X, A], Entry(d, h)) == {Entry(d, h)}
    ensures Read(TOWER.Database(lines), [X, A], Entry(d, h)) == Named(d)
  {
    PlainRead(TOWER.Database(lines), [X, A], Entry(d, h));
  }

  lemma TowerFans(lines: seq<string>, base: string, h: Option<string>, p: Entry)
    requires base in {"t", "l"} && TOWER.IsArch(h)
    ensures p in Leads(TOWER.Database(lines), [X, A], Entry(PerArch(base), h)) <==>
              TOWER.Fans(Binary(base, X), Binary(base, A), h, p)
  {
    assert forall a :: a in ARCHES ==> Binary(base, a) in TOWER.Database(lines);
    ConditionalLeads(TOWER.Database(lines), [X, A], base, h, p);
  }

  lemma TowerReads(lines: seq<string>, d: string, h: Option<string>, p: Entry)
    requires TOWER.IsLine(d) && TOWER.IsArch(h)
    ensures p in Leads(TOWER.Database(lines), [X, A], Entry(d, h)) <==> TOWER.Follows(d, h, p)
  {
    TowerApart();
    if d == TOWER.toolLine {
      TowerFans(lines, "t", h, p);
    } else if d == TOWER.libLine {
      TowerFans(lines, "l", h, p);
    } else {
      TowerPlain(lines, d, h);
    }
  }

  lemma TowerEnds(lines: seq<string>, a: string)
    requires a in ARCHES
    ensures Targets(TOWER.Database(lines), a, TOWER.libLine) == {Binary("l", a)}
  {
    TowerApart();
    var packages := TOWER.Database(lines);
    forall p ensures p in Leads(packages, [a], Entry(TOWER.libLine, None)) <==> p == Entry(Binary("l", a), Some(a)) {
      ConditionalLeads(packages, [a], "l", None, p);
    }
  }

  lemma TowerShape(lines: seq<string>)
    requires TOWER.Lines(lines)
    ensures Shape(TOWER, TOWER.Database(lines), lines) && KnownArchs(TOWER.Archs())
  {
    forall aspect ensures Has(TOWER, TOWER.Database(lines), lines, aspect) {
      match aspect
      case Names => TowerApart();
      case Rows =>
      case Reads =>
        forall d, h, p | TOWER.IsLine(d) && TOWER.IsArch(h)
          ensures p in Leads(TOWER.Database(lines), TOWER.Archs(), Entry(d, h)) <==> TOWER.Follows(d, h, p)
        {
          TowerReads(lines, d, h, p);
        }
      case Ends =>
        TowerEnds(lines, X);
        TowerEnds(lines, A);
        assert TOWER.libLine[|TOWER.libLine| - 5..] == ".ARCH";
    }
  }

  lemma FansDangleNowhere(lines: seq<string>, base: string, h: Option<string>)
    requires base in {"t", "l"} && TOWER.IsArch(h)
    ensures !Dangling(TOWER.Database(lines), [X, A], Entry(PerArch(base), h))
  {
    var packages := TOWER.Database(lines);
    ConditionalRead(packages, [X, A], base, h);
    forall c | c in Candidates(packages, base, Enabled(h, [X, A])) ensures Read(packages, [X, A], c) == Named(c.name) {
      CandidateRead(packages, [X, A], base, c.arch.value);
    }
  }

  /** No entry of the example is missing from it. */
  lemma NothingDangles(lines: seq<string>, first: Visits, e: Entry)
    requires TOWER.Lines(lines) && Required(TOWER.Database(lines), [TOWER.root], first, e)
    requires forall n :: n in first && first[n].Some? ==> first[n].value in ARCHES
    ensures !Dangling(TOWER.Database(lines), [X, A], e)
  {
    TowerApart();
    assert TOWER.IsLine(e.name) && TOWER.IsArch(e.arch) by {
      if n :| n in first && n in TOWER.Database(lines) && e.name in TOWER.Database(lines)[n] && e.arch == first[n] {
        LineOf(TOWER, lines, n, e.name);
      }
    }
    if e.name == TOWER.toolLine {
      FansDangleNowhere(lines, "t", e.arch);
    } else if e.name == TOWER.libLine {
      FansDangleNowhere(lines, "l", e.arch);
    } else {
      TowerPlain(lines, e.name, e.arch);
    }
  }

  /** The walk accepts the example, and what it returns lacks a package both architectures
      need. */
  method RunExample() returns (names: set<string>, ghost first: Visits)
    ensures names == first.Keys && Selection(TOWER.Database(["t"]), [X, A], ["collection-basic"], first)
    ensures (Binary("l", X) in names) != (Binary("l", A) in names)
    ensures !Complete(TOWER.Database(["t"]), [X, A], ["collection-basic"], names)
  {
    var lines := ["t"];
    TowerShape(lines);
    var r;
    r, first := DependencyClosure.DependencyClosure(TOWER.Database(lines), [TOWER.root], TOWER.Archs());
    if r.Err? {
      ghost var e :| Required(TOWER.Database(lines), [TOWER.root], first, e)
                     && Dangling(TOWER.Database(lines), TOWER.Archs(), e);
      NothingDangles(lines, first, e);
    }
    assert "l" != "t";
    TwoArchitecturesLoseAPackage(TOWER, TOWER.Database(lines), lines, first);
    names := r.value;
  }

  /** With the library among the collection's own lines both outcomes are selections. */
  lemma ExampleOrderDecides()
    ensures var packages, s := TOWER.Database(["t", "l"]), Visited(TOWER, None);
            Selection(packages, [X, A], ["collection-basic"], s)
            && Complete(packages, [X, A], ["collection-basic"], s.Keys)
    ensures var packages, s := TOWER.Database(["t", "l"]), Visited(TOWER, Some(X));
            Selection(packages, [X, A], ["collection-basic"], s)
            && !Complete(packages, [X, A], ["collection-basic"], s.Keys)
  {
    TowerShape(["t", "l"]);
    OrderDecides(TOWER, TOWER.Database(["t", "l"]), ["t", "l"]);
  }
}
