/** What a selection means: the least closed set with one architecture, and what the memo
    on names loses with two. */
module ClosureTheorems {
  import opened Text
  import opened Wrappers
  import opened DependencyClosure

  /** The packages a dependency name stands for when only this architecture is enabled. */
  function Targets(packages: Packages, arch: string, name: string): set<string> {
    set p | p in Leads(packages, [arch], Entry(name, None)) :: p.name
  }

  /** Contains the roots' packages and is closed under normalised dependencies. */
  ghost predicate NameClosed(packages: Packages, arch: string, roots: seq<string>, names: set<string>) {
    && (forall r :: r in roots ==> Targets(packages, arch, r) <= names)
    && (forall n, d :: n in names && n in packages && d in packages[n] ==> Targets(packages, arch, d) <= names)
  }

  /** The names reached do not depend on whether the single architecture was inherited. */
  lemma ArchitectureIrrelevant(packages: Packages, arch: string, name: string, p: Entry, inherited: Option<string>)
    requires inherited in {None, Some(arch)} && p in Leads(packages, [arch], Entry(name, inherited))
    ensures p.name in Targets(packages, arch, name) && p.arch in {None, Some(arch)}
  {
    match Read(packages, [arch], Entry(name, inherited))
    case Named(n) => assert Entry(n, None) in Leads(packages, [arch], Entry(name, None));
    case Conditional(cs) =>
      ConditionalSame(packages, arch, name, inherited);
      var c :| c in cs && Read(packages, [arch], c).Named? && p == Entry(Read(packages, [arch], c).package, c.arch);
    case _ =>
  }

  lemma ConditionalSame(packages: Packages, arch: string, name: string, inherited: Option<string>)
    requires inherited in {None, Some(arch)} && EndsWith(name, ".ARCH")
    ensures Leads(packages, [arch], Entry(name, inherited)) == Leads(packages, [arch], Entry(name, None))
  {
    assert Read(packages, [arch], Entry(name, inherited)) == Read(packages, [arch], Entry(name, None));
  }

  function Pairs(names: set<string>, arch: string): set<Entry> {
    (set n | n in names :: Entry(n, None)) + (set n | n in names :: Entry(n, Some(arch)))
  }

  lemma NameClosedPairs(packages: Packages, arch: string, roots: seq<string>, names: set<string>)
    requires NameClosed(packages, arch, roots, names)
    ensures PairClosed(packages, [arch], roots, Pairs(names, arch))
  {
    var pairs := Pairs(names, arch);
    forall r, p | r in roots && p in Leads(packages, [arch], Entry(r, None)) ensures p in pairs {
      ArchitectureIrrelevant(packages, arch, r, p, None);
    }
    forall q, d, p | q in pairs && q.name in packages && d in packages[q.name]
        && p in Leads(packages, [arch], Entry(d, q.arch))
      ensures p in pairs
    {
      ArchitectureIrrelevant(packages, arch, d, p, q.arch);
    }
  }

  lemma LeadsToPackages(packages: Packages, archs: seq<string>, e: Entry, p: Entry)
    requires p in Leads(packages, archs, e)
    ensures p.name in packages
  {
  }

  /** Every package is in some closed set, so first-visit architectures are the one enabled. */
  lemma EverythingIsClosed(packages: Packages, arch: string, roots: seq<string>)
    ensures NameClosed(packages, arch, roots, packages.Keys)
  {
    forall name | true ensures Targets(packages, arch, name) <= packages.Keys {
      forall n | n in Targets(packages, arch, name) ensures n in packages.Keys {
        var p :| p in Leads(packages, [arch], Entry(name, None)) && p.name == n;
        LeadsToPackages(packages, [arch], Entry(name, None), p);
      }
    }
  }

  /** With one architecture the walk selects exactly the least set that contains the roots
      and is closed under dependencies, so the order of the queue does not matter. */
  lemma SingleArchitectureIsLeastClosure(packages: Packages, arch: string, roots: seq<string>, first: Visits)
    requires Selection(packages, [arch], roots, first)
    ensures NameClosed(packages, arch, roots, first.Keys)
    ensures forall names :: NameClosed(packages, arch, roots, names) ==> first.Keys <= names
  {
    forall names, n | NameClosed(packages, arch, roots, names) && n in first
      ensures n in names && first[n] in {None, Some(arch)}
    {
      NameClosedPairs(packages, arch, roots, names);
    }
    EverythingIsClosed(packages, arch, roots);
    forall r, n | r in roots && n in Targets(packages, arch, r) ensures n in first {
      var p :| p in Leads(packages, [arch], Entry(r, None)) && p.name == n;
      assert Required(packages, roots, first, Entry(r, None));
    }
    forall m, d, n | m in first && m in packages && d in packages[m]
        && n in Targets(packages, arch, d) ensures n in first {
      var e := Entry(d, first[m]);
      assert Required(packages, roots, first, e);
      SameTargets(packages, arch, d, first[m], n);
      var p :| p in Leads(packages, [arch], e) && p.name == n;
    }
  }

  lemma SameTargets(packages: Packages, arch: string, name: string, inherited: Option<string>, n: string)
    requires inherited in {None, Some(arch)} && n in Targets(packages, arch, name)
    ensures exists p :: p in Leads(packages, [arch], Entry(name, inherited)) && p.name == n
  {
    var p :| p in Leads(packages, [arch], Entry(name, None)) && p.name == n;
    match Read(packages, [arch], Entry(name, None))
    case Named(_) => assert Entry(n, inherited) in Leads(packages, [arch], Entry(name, inherited));
    case Conditional(_) => assert p in Leads(packages, [arch], Entry(name, inherited));
    case _ =>
  }

  /** Two selections of the same roots agree, whatever order their queues had. */
  lemma SingleArchitectureIsDeterministic(packages: Packages, arch: string, roots: seq<string>,
                                          first: Visits, other: Visits)
    requires Selection(packages, [arch], roots, first) && Selection(packages, [arch], roots, other)
    ensures first.Keys == other.Keys
  {
    SingleArchitectureIsLeastClosure(packages, arch, roots, first);
    SingleArchitectureIsLeastClosure(packages, arch, roots, other);
  }

  lemma {:induction false} NoVersion(s: string)
    requires '>' !in s
    ensures BeforeVersion(s) == s
  {
    if |s| >= 2 {
      assert s[..2][0] == s[0] && s[0] in s;
      NoVersion(s[1..]);
      assert s == [s[0]] + s[1..];
    }
  }

  lemma FirstOfPrefix(s: string, prefix: string)
    requires StartsWith(s, prefix) && prefix != []
    ensures s[0] == prefix[0]
  {
    assert s[..|prefix|][0] == s[0];
  }

  lemma PlainRead(packages: Packages, archs: seq<string>, e: Entry)
    requires e.name in packages && '>' !in e.name && 0 < |e.name|
    requires e.name[|e.name| - 1] !in "Hs" && e.name[0] != 's'
    ensures Read(packages, archs, e) == Named(e.name)
    ensures Leads(packages, archs, e) == {e}
  {
    NoVersion(e.name);
    if EndsWith(e.name, ".ARCH") { LastOfSuffix(e.name, ".ARCH"); }
    if EndsWith(e.name, ".windows") { LastOfSuffix(e.name, ".windows"); }
    if StartsWith(e.name, "setting_available_architectures:") {
      FirstOfPrefix(e.name, "setting_available_architectures:");
    }
    if StartsWith(e.name, "setting_available_architectures/") {
      FirstOfPrefix(e.name, "setting_available_architectures/");
    }
  }

  predicate Blank(c: char) {
    c == ' ' || c == '\t' || c == '\n' || c == '\r'
  }

  predicate Unpadded(s: string) {
    s == [] || (!Blank(s[0]) && !Blank(s[|s| - 1]))
  }

  predicate AllBlank(s: string) {
    forall c :: c in s ==> Blank(c)
  }

  /** Stripping takes away blanks at both ends and nothing else. */
  lemma {:induction false} StripMeans(s: string) returns (before: string, after: string)
    ensures s == before + Strip(s) + after && AllBlank(before) && AllBlank(after) && Unpadded(Strip(s))
    decreases |s|
  {
    before, after := [], [];
    assert forall c :: Blank(c) <==> c in " \t\n\r";
    if s != [] && Blank(s[0]) {
      before, after := StripMeans(s[1..]);
      assert s == [s[0]] + s[1..];
      before := [s[0]] + before;
    } else if s != [] && Blank(s[|s| - 1]) {
      before, after := StripMeans(s[..|s| - 1]);
      assert s == s[..|s| - 1] + [s[|s| - 1]];
      after := after + [s[|s| - 1]];
    }
  }

  predicate Versioned(s: string, i: nat) {
    i + 2 <= |s| && s[i] == '>' && s[i + 1] == '='
  }

  /** A version requirement starts at the first ">=". */
  lemma {:induction false} BeforeVersionMeans(s: string)
    ensures BeforeVersion(s) <= s
    ensures BeforeVersion(s) == s || Versioned(s, |BeforeVersion(s)|)
    ensures forall i: nat :: i < |BeforeVersion(s)| ==> !Versioned(s, i)
    decreases |s|
  {
    if |s| >= 2 && s[..2] != ">=" {
      BeforeVersionMeans(s[1..]);
      assert s == [s[0]] + s[1..];
      assert s[..2] == [s[0], s[1]];
      forall i: nat | i < |BeforeVersion(s)| ensures !Versioned(s, i) {
        if i > 0 { assert Versioned(s, i) ==> Versioned(s[1..], i - 1); }
      }
      assert Versioned(s[1..], |BeforeVersion(s[1..])|) ==> Versioned(s, |BeforeVersion(s)|);
    } else if |s| >= 2 {
      assert s[..2][0] == s[0] && s[..2][1] == s[1];
    }
  }

  lemma NoEarlierVersion(name: string, rest: string, i: nat)
    requires (forall k: nat :: !Versioned(name, k)) && i < |name|
    ensures !Versioned(name + ">=" + rest, i)
  {
    var s := name + ">=" + rest;
    assert !Versioned(name, i);
    assert s[i] == name[i] && s[i + 1] == if i + 1 < |name| then name[i + 1] else '>';
  }

  /** "name>=version" stands for the package `name`, blanks around it dropped; a name without a
      requirement stands for itself. */
  lemma NormaliseMeans(name: string, rest: string)
    requires forall i: nat :: !Versioned(name, i)
    ensures Normalise(name) == name && Normalise(name + ">=" + rest) == Strip(name)
  {
    var s := name + ">=" + rest;
    BeforeVersionMeans(name);
    BeforeVersionMeans(s);
    var n := |BeforeVersion(s)|;
    assert Versioned(s, |name|);
    forall i: nat | i < |name| ensures !Versioned(s, i) { NoEarlierVersion(name, rest, i); }
    assert BeforeVersion(s) == s[..n] == name;
  }

  /** Other platforms' binaries are no packages, nor are the installer's own settings. */
  lemma WindowsIsIgnored(packages: Packages, archs: seq<string>, base: string, h: Option<string>)
    ensures Read(packages, archs, Entry(base + ".windows", h)) == Ignored
  {
    var name := base + ".windows";
    assert name[|base|..] == ".windows";
    if EndsWith(name, ".ARCH") { LastOfSuffix(name, ".ARCH"); }
  }

  lemma SettingIsIgnored(packages: Packages, archs: seq<string>, setting: string, base: string, h: Option<string>)
    requires setting in {"setting_available_architectures:", "setting_available_architectures/"}
    ensures !EndsWith(setting + base, ".ARCH") ==> Read(packages, archs, Entry(setting + base, h)).Ignored?
  {
    assert (setting + base)[..|setting|] == setting;
  }

  /** Any other name is a package of the database, a virtual one with a slash, or an error. */
  lemma PlainNames(packages: Packages, archs: seq<string>, name: string, h: Option<string>)
    requires (forall i: nat :: !Versioned(name, i)) && name != [] && name[0] != 's'
    requires !EndsWith(name, ".ARCH") && !EndsWith(name, ".windows")
    ensures Read(packages, archs, Entry(name, h)) ==
              if name in packages then Named(name) else if '/' in name then Ignored else Missing(name)
  {
    NormaliseMeans(name, "");
    if StartsWith(name, "setting_available_architectures:") {
      FirstOfPrefix(name, "setting_available_architectures:");
    }
    if StartsWith(name, "setting_available_architectures/") {
      FirstOfPrefix(name, "setting_available_architectures/");
    }
  }

  function Enabled(arch: Option<string>, archs: seq<string>): seq<string> {
    if arch.Some? then [arch.value] else archs
  }

  lemma ConditionalRead(packages: Packages, archs: seq<string>, base: string, arch: Option<string>)
    ensures Read(packages, archs, Entry(base + ".ARCH", arch)) ==
              Conditional(Candidates(packages, base, Enabled(arch, archs)))
  {
    var name := base + ".ARCH";
    assert name[|name| - 5..] == ".ARCH" && name[..|name| - 5] == base;
  }

  lemma CandidateRead(packages: Packages, archs: seq<string>, base: string, a: string)
    requires 0 < |base| && base[0] != 's' && '>' !in base && a in ARCHES && base + "." + a in packages
    ensures Read(packages, archs, Entry(base + "." + a, Some(a))) == Named(base + "." + a)
  {
    var name := base + "." + a;
    assert name[|name| - 1] == 'x' && name[0] == base[0];
    PlainRead(packages, archs, Entry(name, Some(a)));
  }

  /** A dependency on `base.ARCH` inherits the architecture, or fans out over all of them. */
  lemma ConditionalLeads(packages: Packages, archs: seq<string>, base: string, arch: Option<string>, p: Entry)
    requires 0 < |base| && base[0] != 's' && '>' !in base
    requires forall a :: a in Enabled(arch, archs) ==> a in ARCHES
    ensures p in Leads(packages, archs, Entry(base + ".ARCH", arch)) <==>
            p.arch.Some? && p.arch.value in Enabled(arch, archs) && p.name == base + "." + p.arch.value
                && p.name in packages
  {
    ConditionalRead(packages, archs, base, arch);
    var cs := Candidates(packages, base, Enabled(arch, archs));
    forall c | c in cs ensures Read(packages, archs, c) == Named(c.name) {
      CandidateRead(packages, archs, base, c.arch.value);
    }
    assert p in Leads(packages, archs, Entry(base + ".ARCH", arch)) <==> p in cs;
  }

  const X := "x86_64-linux"
  const A := "aarch64-linux"

  function Binary(base: string, arch: string): string {
    base + "." + arch
  }

  function PerArch(base: string): string {
    base + ".ARCH"
  }
}
