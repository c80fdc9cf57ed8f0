/** Names of package archives in a snapshot and their stable aliases
    (`package_files`, `package_aliases`, `safe_relative_path`, `validate_manifest_alias` in
    deploy/texlive-mirror/texlive_mirror.py). */
module ArchivePaths {
  import opened Text
  import opened Wrappers

  datatype Package = Package(revision: string, checksum: Option<string>, size: Option<nat>)

  datatype Item = Item(path: string, sha512: string, size: nat)

  datatype Alias = Alias(path: string, target: string)

  predicate NameChar(c: char) {
    'A' <= c <= 'Z' || 'a' <= c <= 'z' || IsDigit(c) || c in "+_.-"
  }

  /** `PACKAGE_RE`. */
  predicate PackageName(n: string) {
    n != [] && n[0] !in "+_.-" && forall c :: c in n ==> NameChar(c)
  }

  /** `REVISION_RE`. */
  predicate Revision(r: string) {
    1 <= |r| <= 16 && AllDigits(r) && (r[0] == '0' ==> r == "0")
  }

  /** What `parse_tlpdb` guarantees of every package. */
  predicate Parsed(packages: map<string, Package>) {
    forall n :: n in packages ==> PackageName(n) && Revision(packages[n].revision)
  }

  predicate Hex(c: char) {
    IsDigit(c) || 'a' <= c <= 'f' || 'A' <= c <= 'F'
  }

  function Lower(s: string): string {
    if s == [] then [] else
      (if 'A' <= s[0] <= 'F' then [(s[0] as int + 32) as char] else [s[0]]) + Lower(s[1..])
  }

  /** A package with an archive of its own. */
  predicate Archived(p: Package) {
    p.checksum.Some? || p.size.Some?
  }

  predicate Downloadable(p: Package) {
    && p.checksum.Some? && |p.checksum.value| == 128 && (forall c :: c in p.checksum.value ==> Hex(c))
    && p.size.Some? && Revision(p.revision)
  }

  function ArchivePath(name: string, revision: string): string {
    "archive/" + name + ".r" + revision + ".tar.xz"
  }

  function AliasPath(name: string): string {
    "archive/" + name + ".tar.xz"
  }

  function Components(s: string): (parts: seq<string>)
    ensures parts != []
  {
    if s == [] then [[]]
    else if s[0] == '/' then [[]] + Components(s[1..])
    else var rest := Components(s[1..]); [[s[0]] + rest[0]] + rest[1..]
  }

  /** `safe_relative_path` accepts the path. */
  predicate SafeRelative(path: string) {
    path != [] && '\\' !in path && forall c :: c in Components(path) ==> c !in ["", ".", ".."]
  }

  function Parent(path: string): seq<string> {
    var parts := Components(path);
    parts[..|parts| - 1]
  }

  /** `validate_manifest_alias` accepts the alias. */
  predicate ValidAlias(a: Alias, filePaths: set<string>) {
    && SafeRelative(a.path) && SafeRelative(a.target)
    && a.path !in filePaths && a.target in filePaths
    && Parent(a.path) == Parent(a.target)
  }

  /** An alias is accepted exactly between two safe names of one directory, of which the target
      is a listed file and the alias is not. */
  lemma ValidAliasMeans(a: Alias, filePaths: set<string>)
    ensures ValidAlias(a, filePaths) <==>
            !(|| !SafeRelative(a.path) || !SafeRelative(a.target) || a.path in filePaths || a.target !in filePaths
              || Parent(a.path) != Parent(a.target))
  {
  }

  lemma HexMeans(c: char)
    ensures Hex(c) <==> c in "0123456789abcdefABCDEF"
  {
  }

  /** Revisions are the numbers below 10^16 without leading zeros. */
  lemma RevisionMeans(r: string)
    ensures Revision(r) <==> r == "0" || (r != [] && |r| < 17 && AllDigits(r) && r[0] != '0')
  {
    if r == "0" { assert forall c :: c in "0" ==> c == '0'; }
  }

  lemma {:induction false} OneComponent(s: string)
    requires '/' !in s
    ensures Components(s) == [s]
    decreases |s|
  {
    if s != [] {
      OneComponent(s[1..]);
      assert s == [s[0]] + s[1..];
    }
  }

  lemma {:induction false} FirstComponent(a: string, s: string)
    requires '/' !in a
    ensures Components(a + "/" + s) == [a] + Components(s)
    decreases |a|
  {
    var path := a + "/" + s;
    if a == [] {
      assert path[1..] == s;
    } else {
      assert path[1..] == a[1..] + "/" + s && a == [a[0]] + a[1..];
      FirstComponent(a[1..], s);
    }
  }

  lemma InArchive(file: string)
    requires '/' !in file && '\\' !in file && 2 < |file|
    ensures SafeRelative("archive/" + file) && Parent("archive/" + file) == ["archive"]
  {
    assert "archive/" + file == "archive" + "/" + file;
    FirstComponent("archive", file);
    OneComponent(file);
  }

  lemma AliasIsSafe(name: string, revision: string)
    requires PackageName(name) && Revision(revision)
    ensures SafeRelative(AliasPath(name)) && SafeRelative(ArchivePath(name, revision))
    ensures Parent(AliasPath(name)) == Parent(ArchivePath(name, revision))
  {
    assert !NameChar('/') && !NameChar('\\');
    InArchive(name + ".tar.xz");
    InArchive(name + ".r" + revision + ".tar.xz");
    assert AliasPath(name) == "archive/" + (name + ".tar.xz");
    assert ArchivePath(name, revision) == "archive/" + (name + ".r" + revision + ".tar.xz");
  }

  lemma DigitsAtEnd(m: string, e: string, i: nat)
    requires AllDigits(e) && |m| + 2 <= i < |m + ".r" + e|
    ensures IsDigit((m + ".r" + e)[i])
  {
    assert (m + ".r" + e)[i] == e[i - |m| - 2] && e[i - |m| - 2] in e;
  }

  lemma LastDotR(n: string, d: string, m: string, e: string)
    requires AllDigits(d) && AllDigits(e) && n + ".r" + d == m + ".r" + e && |d| <= |e|
    ensures n == m && d == e
  {
    var s, t := n + ".r" + d, m + ".r" + e;
    if |d| < |e| {
      assert s[|n| + 1] == 'r';
      DigitsAtEnd(m, e, |n| + 1);
    } else {
      assert s[..|n|] == n && t[..|m|] == m && s[|n| + 2..] == d && t[|m| + 2..] == e;
    }
  }

  lemma Unwrap(x: string, y: string)
    requires "archive/" + x + ".tar.xz" == "archive/" + y + ".tar.xz"
    ensures x == y
  {
    var s, t := "archive/" + x + ".tar.xz", "archive/" + y + ".tar.xz";
    assert s[8..|s| - 7] == x && t[8..|t| - 7] == y;
  }

  /** Archive paths name their package and revision: digits alone follow the last ".r". */
  lemma ArchivePathInjective(n: string, d: string, m: string, e: string)
    requires AllDigits(d) && AllDigits(e)
    ensures ArchivePath(n, d) == ArchivePath(m, e) <==> n == m && d == e
  {
    if ArchivePath(n, d) == ArchivePath(m, e) {
      assert ArchivePath(n, d) == "archive/" + (n + ".r" + d) + ".tar.xz";
      assert ArchivePath(m, e) == "archive/" + (m + ".r" + e) + ".tar.xz";
      Unwrap(n + ".r" + d, m + ".r" + e);
      if |d| <= |e| { LastDotR(n, d, m, e); } else { LastDotR(m, e, n, d); }
    }
  }

  /** An alias collides with an archive exactly when a package is called like another one's
      revision. */
  lemma AliasCollides(n: string, m: string, e: string)
    ensures AliasPath(n) == ArchivePath(m, e) <==> n == m + ".r" + e
  {
    assert ArchivePath(m, e) == "archive/" + (m + ".r" + e) + ".tar.xz";
    if AliasPath(n) == ArchivePath(m, e) { Unwrap(n, m + ".r" + e); }
  }

  lemma AliasPathInjective(n: string, m: string)
    ensures AliasPath(n) == AliasPath(m) <==> n == m
  {
    if AliasPath(n) == AliasPath(m) { Unwrap(n, m); }
  }

  /** The archived ones among these packages, in order. */
  function ArchivedNames(packages: map<string, Package>, names: seq<string>): seq<string> {
    if names == [] then [] else
      var n := names[|names| - 1];
      ArchivedNames(packages, names[..|names| - 1]) + if n in packages && Archived(packages[n]) then [n] else []
  }

  lemma {:induction false} ArchivedNamesAre(packages: map<string, Package>, names: seq<string>)
    ensures forall n :: n in ArchivedNames(packages, names) <==> n in names && n in packages && Archived(packages[n])
    decreases |names|
  {
    if names != [] {
      ArchivedNamesAre(packages, names[..|names| - 1]);
      assert names == names[..|names| - 1] + [names[|names| - 1]];
    }
  }

  lemma NextArchived(packages: map<string, Package>, names: seq<string>, i: nat)
    requires i < |names| && names[i] in packages
    ensures var before := ArchivedNames(packages, names[..i]);
            ArchivedNames(packages, names[..i + 1]) ==
            if Archived(packages[names[i]]) then before + [names[i]] else before
  {
    assert names[..i + 1][..i] == names[..i];
  }

  ghost predicate Distinct(s: seq<string>) {
    forall i, j :: 0 <= i < j < |s| ==> s[i] != s[j]
  }

  lemma {:induction false} ArchivedNamesDistinct(packages: map<string, Package>, names: seq<string>)
    requires Distinct(names)
    ensures Distinct(ArchivedNames(packages, names))
    decreases |names|
  {
    if names != [] {
      ArchivedNamesDistinct(packages, names[..|names| - 1]);
      ArchivedNamesAre(packages, names[..|names| - 1]);
    }
  }

  function ItemOf(name: string, p: Package): Item {
    if Downloadable(p)
    then Item(ArchivePath(name, p.revision), Lower(p.checksum.value), p.size.value)
    else Item("", "", 0)
  }

  predicate LowerHex(c: char) {
    '0' <= c <= '9' || 'a' <= c <= 'f'
  }

  lemma {:induction false} LowerKeepsDigits(s: string)
    requires forall c :: c in s ==> Hex(c)
    ensures |Lower(s)| == |s|
    ensures forall i :: 0 <= i < |s| ==>
              && LowerHex(Lower(s)[i])
              && (Lower(s)[i] == s[i] ||
                   ('A' <= s[i] <= 'F' && Lower(s)[i] as int - 'a' as int == s[i] as int - 'A' as int))
    decreases |s|
  {
    if s != [] {
      LowerKeepsDigits(s[1..]);
      assert Lower(s)[1..] == Lower(s[1..]);
      assert s[0] in s;
    }
  }

  /** A manifest entry names the archive of the revision, its size and its checksum in lower
      case. */
  lemma ItemMeans(name: string, p: Package)
    requires Downloadable(p)
    ensures var item := ItemOf(name, p);
            && item.path == "archive/" + name + ".r" + p.revision + ".tar.xz"
            && Some(item.size) == p.size && |item.sha512| == |p.checksum.value| == 128
            && (forall i :: 0 <= i < 128 ==> LowerHex(item.sha512[i]))
            && (forall i :: 0 <= i < 128 && LowerHex(p.checksum.value[i]) ==>
                 item.sha512[i] == p.checksum.value[i])
  {
    LowerKeepsDigits(p.checksum.value);
  }

  /** The manifest entry of each archived package. */
  function ItemsOf(packages: map<string, Package>, archived: seq<string>): (files: seq<Item>)
    ensures |files| == |archived|
  {
    if archived == [] then [] else
      var n := archived[|archived| - 1];
      ItemsOf(packages, archived[..|archived| - 1])
      + [if n in packages then ItemOf(n, packages[n]) else Item("", "", 0)]
  }

  lemma {:induction false} ItemAt(packages: map<string, Package>, archived: seq<string>, i: nat)
    requires i < |archived| && archived[i] in packages
    ensures ItemsOf(packages, archived)[i] == ItemOf(archived[i], packages[archived[i]])
    decreases |archived|
  {
    if i < |archived| - 1 { ItemAt(packages, archived[..|archived| - 1], i); }
  }

  lemma NextItem(packages: map<string, Package>, archived: seq<string>, n: string)
    requires n in packages
    ensures ItemsOf(packages, archived + [n]) == ItemsOf(packages, archived) + [ItemOf(n, packages[n])]
  {
    assert (archived + [n])[..|archived|] == archived;
  }

  predicate Accepted(packages: map<string, Package>, n: string) {
    n in packages && Archived(packages[n]) ==> Downloadable(packages[n])
  }

  predicate AllDownloadable(packages: map<string, Package>, names: seq<string>) {
    names == [] || (AllDownloadable(packages, names[..|names| - 1]) && Accepted(packages, names[|names| - 1]))
  }

  lemma {:induction false} AllDownloadableMeans(packages: map<string, Package>, names: seq<string>)
    ensures AllDownloadable(packages, names) <==> forall n :: n in names ==> Accepted(packages, n)
    decreases |names|
  {
    if names != [] {
      AllDownloadableMeans(packages, names[..|names| - 1]);
      assert names == names[..|names| - 1] + [names[|names| - 1]];
    }
  }

  lemma {:induction false} AllDownloadablePrefix(packages: map<string, Package>, names: seq<string>, k: nat)
    requires k <= |names| && AllDownloadable(packages, names)
    ensures AllDownloadable(packages, names[..k])
    decreases |names|
  {
    if k < |names| {
      AllDownloadablePrefix(packages, names[..|names| - 1], k);
      assert names[..|names| - 1][..k] == names[..k];
    } else {
      assert names[..k] == names;
    }
  }

  /** `names` are the selected packages in sorted order. */
  method PackageFiles(packages: map<string, Package>, names: seq<string>) returns (files: Option<seq<Item>>)
    requires forall i :: 0 <= i < |names| ==> names[i] in packages
    ensures files.Some? <==> AllDownloadable(packages, names)
    ensures files.Some? ==> files.value == ItemsOf(packages, ArchivedNames(packages, names))
  {
    var result: seq<Item> := [];
    ghost var done: seq<string> := [];
    for i := 0 to |names|
      invariant AllDownloadable(packages, names[..i])
      invariant done == ArchivedNames(packages, names[..i]) && result == ItemsOf(packages, done)
    {
      var n := names[i];
      NextArchived(packages, names, i);
      assert names[..i + 1][..i] == names[..i];
      if Archived(packages[n]) {
        if !Downloadable(packages[n]) {
          assert !AllDownloadable(packages, names[..i + 1]);
          if AllDownloadable(packages, names) { AllDownloadablePrefix(packages, names, i + 1); }
          return None;
        }
        NextItem(packages, done, n);
        result := result + [ItemOf(n, packages[n])];
        done := done + [n];
      }
    }
    assert names[..|names|] == names;
    files := Some(result);
  }

  /** What `package_files` returns is what `package_aliases` is given. */
  lemma ItemsAreFiles(packages: map<string, Package>, names: seq<string>)
    requires AllDownloadable(packages, names)
    ensures var archived := ArchivedNames(packages, names); FilesOf(packages, archived, ItemsOf(packages, archived))
  {
    var archived := ArchivedNames(packages, names);
    ArchivedNamesAre(packages, names);
    AllDownloadableMeans(packages, names);
    forall i | 0 <= i < |archived|
      ensures archived[i] in packages
                && ItemsOf(packages, archived)[i].path == ArchivePath(archived[i], packages[archived[i]].revision)
    {
      assert archived[i] in archived && Accepted(packages, archived[i]);
      ItemAt(packages, archived, i);
    }
  }

  function PathsOf(files: seq<Item>): set<string> {
    set f | f in files :: f.path
  }

  /** This name is what another package's archive is called after its revision. */
  ghost predicate Clashes(packages: map<string, Package>, archived: seq<string>, n: string) {
    exists m :: m in archived && m in packages && n == m + ".r" + packages[m].revision
  }

  ghost predicate Unclashed(packages: map<string, Package>, archived: seq<string>, done: seq<string>) {
    forall n :: n in done ==> !Clashes(packages, archived, n)
  }

  ghost predicate NoClash(packages: map<string, Package>, archived: seq<string>) {
    Unclashed(packages, archived, archived)
  }

  function AliasPaths(names: seq<string>): set<string> {
    set n | n in names :: AliasPath(n)
  }

  /** The files are those `package_files` lists for the same selection. */
  ghost predicate FilesOf(packages: map<string, Package>, archived: seq<string>, files: seq<Item>) {
    && |files| == |archived|
    && forall i :: 0 <= i < |archived| ==>
         archived[i] in packages && files[i].path == ArchivePath(archived[i], packages[archived[i]].revision)
  }

  lemma TargetIsListed(packages: map<string, Package>, archived: seq<string>, files: seq<Item>, n: string)
    requires FilesOf(packages, archived, files) && n in archived
    ensures n in packages && ArchivePath(n, packages[n].revision) in PathsOf(files)
  {
    var i :| 0 <= i < |archived| && archived[i] == n;
    assert files[i] in files && files[i].path == ArchivePath(n, packages[n].revision);
  }

  lemma AliasIsListed(packages: map<string, Package>, archived: seq<string>, files: seq<Item>, n: string)
    requires FilesOf(packages, archived, files)
    ensures AliasPath(n) in PathsOf(files) <==> Clashes(packages, archived, n)
  {
    forall m | m in archived ensures m in packages
        && (AliasPath(n) == ArchivePath(m, packages[m].revision) <==> n == m + ".r" + packages[m].revision) {
      TargetIsListed(packages, archived, files, m);
      AliasCollides(n, m, packages[m].revision);
    }
    if AliasPath(n) in PathsOf(files) {
      var f :| f in files && f.path == AliasPath(n);
      var i :| 0 <= i < |files| && files[i] == f;
      assert archived[i] in archived;
    }
    if m :| m in archived && m in packages && n == m + ".r" + packages[m].revision {
      TargetIsListed(packages, archived, files, m);
    }
  }

  function AliasesOf(packages: map<string, Package>, archived: seq<string>): (aliases: seq<Alias>)
    ensures |aliases| == |archived|
  {
    if archived == [] then [] else
      var n := archived[|archived| - 1];
      AliasesOf(packages, archived[..|archived| - 1])
          + [Alias(AliasPath(n), if n in packages then ArchivePath(n, packages[n].revision) else "")]
  }

  lemma {:induction false} AliasAt(packages: map<string, Package>, archived: seq<string>, i: nat)
    requires i < |archived| && archived[i] in packages
    ensures AliasesOf(packages, archived)[i] ==
              Alias(AliasPath(archived[i]), ArchivePath(archived[i], packages[archived[i]].revision))
    decreases |archived|
  {
    if i < |archived| - 1 { AliasAt(packages, archived[..|archived| - 1], i); }
  }

  lemma NextAlias(packages: map<string, Package>, archived: seq<string>, n: string)
    requires n in packages
    ensures AliasesOf(packages, archived + [n]) == AliasesOf(packages, archived)
              + [Alias(AliasPath(n), ArchivePath(n, packages[n].revision))]
  {
    assert (archived + [n])[..|archived|] == archived;
  }

  lemma AliasesAreValid(packages: map<string, Package>, archived: seq<string>, files: seq<Item>)
    requires Parsed(packages) && FilesOf(packages, archived, files) && NoClash(packages, archived)
    ensures forall a :: a in AliasesOf(packages, archived) ==> ValidAlias(a, PathsOf(files))
  {
    forall a | a in AliasesOf(packages, archived) ensures ValidAlias(a, PathsOf(files)) {
      var i :| 0 <= i < |archived| && AliasesOf(packages, archived)[i] == a;
      var n := archived[i];
      AliasAt(packages, archived, i);
      TargetIsListed(packages, archived, files, n);
      AliasIsListed(packages, archived, files, n);
      AliasIsSafe(n, packages[n].revision);
    }
  }

  lemma FreshAlias(packages: map<string, Package>, names: seq<string>, i: nat)
    requires Distinct(names) && i < |names|
    ensures AliasPath(names[i]) !in AliasPaths(ArchivedNames(packages, names[..i]))
  {
    ArchivedNamesAre(packages, names[..i]);
    forall m | m in names[..i] ensures AliasPath(m) != AliasPath(names[i]) { AliasPathInjective(m, names[i]); }
  }

  /** What one iteration decides. */
  lemma AliasStep(packages: map<string, Package>, names: seq<string>, files: seq<Item>, i: nat)
    requires Distinct(names) && i < |names| && names[i] in packages && Archived(packages[names[i]])
    requires FilesOf(packages, ArchivedNames(packages, names), files)
    ensures var n := names[i];
            && n in ArchivedNames(packages, names)
            && ArchivePath(n, packages[n].revision) in PathsOf(files)
            && (AliasPath(n) in PathsOf(files) <==> Clashes(packages, ArchivedNames(packages, names), n))
  {
    ArchivedNamesAre(packages, names);
    TargetIsListed(packages, ArchivedNames(packages, names), files, names[i]);
    AliasIsListed(packages, ArchivedNames(packages, names), files, names[i]);
  }

  lemma NextPath(names: seq<string>, n: string)
    ensures AliasPaths(names + [n]) == AliasPaths(names) + {AliasPath(n)}
  {
  }

  /** The aliases exist exactly when no package is called like another one's archive; then
      every one of them is accepted on reading the manifest back. */
  method PackageAliases(packages: map<string, Package>, names: seq<string>, files: seq<Item>)
    returns (r: Option<seq<Alias>>)
    requires Parsed(packages) && (forall n :: n in names ==> n in packages) && Distinct(names)
    requires FilesOf(packages, ArchivedNames(packages, names), files)
    ensures r.Some? <==> NoClash(packages, ArchivedNames(packages, names))
    ensures r.Some? ==> r.value == AliasesOf(packages, ArchivedNames(packages, names))
    ensures r.Some? ==> forall a :: a in r.value ==> ValidAlias(a, PathsOf(files))
  {
    var filePaths := PathsOf(files);
    var aliases: seq<Alias>, aliasPaths: set<string> := [], {};
    ghost var archived, done: seq<string> := ArchivedNames(packages, names), [];
    for i := 0 to |names|
      invariant done == ArchivedNames(packages, names[..i])
      invariant aliases == AliasesOf(packages, done) && aliasPaths == AliasPaths(done)
      invariant Unclashed(packages, archived, done)
    {
      var n := names[i];
      assert n in names;
      NextArchived(packages, names, i);
      if Archived(packages[n]) {
        var target, relative := ArchivePath(n, packages[n].revision), AliasPath(n);
        AliasStep(packages, names, files, i);
        FreshAlias(packages, names, i);
        if target !in filePaths || relative in filePaths || relative in aliasPaths { return None; }
        NextAlias(packages, done, n);
        NextPath(done, n);
        aliases, aliasPaths := aliases + [Alias(relative, target)], aliasPaths + {relative};
        done := done + [n];
      }
    }
    assert names[..|names|] == names;
    AliasesAreValid(packages, archived, files);
    r := Some(aliases);
  }

  /** No two files and no two aliases of one manifest share a path. */
  lemma ManifestPathsDistinct(packages: map<string, Package>, names: seq<string>, files: seq<Item>, i: nat, j: nat)
    requires Parsed(packages) && Distinct(names) && (forall n :: n in names ==> n in packages)
    requires FilesOf(packages, ArchivedNames(packages, names), files) && i < j < |files|
    ensures files[i].path != files[j].path
    ensures var aliases := AliasesOf(packages, ArchivedNames(packages, names));
            aliases[i].path != aliases[j].path && aliases[i].target == files[i].path
  {
    var archived := ArchivedNames(packages, names);
    ArchivedNamesDistinct(packages, names);
    ArchivePathInjective(archived[i], packages[archived[i]].revision, archived[j], packages[archived[j]].revision);
    AliasPathInjective(archived[i], archived[j]);
    AliasAt(packages, archived, i);
    AliasAt(packages, archived, j);
  }

  /** One package called like the revisioned archive of another clashes with it. */
  lemma RevisionedNameClashes(packages: map<string, Package>, names: seq<string>, m: string, n: string)
    requires m in names && n in names && m in packages && n in packages
    requires Archived(packages[m]) && Archived(packages[n]) && n == m + ".r" + packages[m].revision
    ensures !NoClash(packages, ArchivedNames(packages, names))
  {
    ArchivedNamesAre(packages, names);
    assert Clashes(packages, ArchivedNames(packages, names), n);
  }

  /** A database with such a clash that is accepted up to the aliases: package "a" at revision
      1 beside a package "a.r1". */
  function ClashingPackages(p: Package): map<string, Package> {
    map["a" := p, "a.r1" := p]
  }

  lemma ClashingNames(p: Package)
    requires p.revision == "1" && Downloadable(p)
    ensures Parsed(ClashingPackages(p)) && AllDownloadable(ClashingPackages(p), ["a", "a.r1"])
    ensures Distinct(["a", "a.r1"]) && !NoClash(ClashingPackages(p), ArchivedNames(ClashingPackages(p), ["a", "a.r1"]))
  {
    var packages, names := ClashingPackages(p), ["a", "a.r1"];
    AllDownloadableMeans(packages, names);
    assert names[0] == "a" && names[1] == "a.r1";
    assert PackageName("a.r1") && PackageName("a");
    assert "a.r1" == "a" + ".r" + packages["a"].revision;
    RevisionedNameClashes(packages, names, "a", "a.r1");
  }

  method RejectedForItsNames(p: Package) returns (files: Option<seq<Item>>, aliases: Option<seq<Alias>>)
    requires p.revision == "1" && Downloadable(p)
    ensures Parsed(ClashingPackages(p)) && files.Some? && aliases == None
  {
    ClashingNames(p);
    var packages, names := ClashingPackages(p), ["a", "a.r1"];
    files := PackageFiles(packages, names);
    ItemsAreFiles(packages, names);
    aliases := PackageAliases(packages, names, files.value);
  }
}
