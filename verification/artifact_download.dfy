/** What a download leaves in the output directory (`downloadArtifacts`, `stageArtifacts`,
    `downloadPreviews` in packages/client-core/src/index.ts, `pruneGeneratedArtifacts` in
    artifact-cleanup.ts). */
module ArtifactDownload {
  import opened Text
  import opened Wrappers
  import opened ArtifactStore

  datatype Kind = Preview | Svg | SvgManifest | Other

  /** An advertised artifact; `content` is what its checksum stands for, or None when the
      download or its verification fails. */
  datatype Artifact = Artifact(kind: Kind, relativePath: string, content: Option<string>)

  /** `text` is the job as it is written to job.json. */
  datatype Job = Job(artifacts: seq<Artifact>, previews: seq<Artifact>, text: string)

  /** `read`: the relative paths listed in a job.json, if it is a usable object.
      `beyond`: how a page number too large to be exact is printed. */
  datatype Platform = Platform(read: string -> Option<seq<string>>, beyond: string -> string)

  const NAMED := ["result.pdf", "errors.json", "compile.log"]
  const SVG_DIAGNOSTICS := ["svg/compile.log", "svg/errors.json", "svg/dependencies.json"]
  const EXACT := 0x20_0000_0000_0000

  function PagePath(page: string): string {
    "previews/page-" + page + ".png"
  }

  /** The digits of a preview path. */
  function PageDigits(path: string): (d: Option<string>)
    ensures d.Some? ==> AllDigits(d.value) && d.value != [] && path == PagePath(d.value)
  {
    if StartsWith(path, "previews/page-") && EndsWith(path, ".png") && 18 < |path| then
      SplitAt(path, "previews/page-", ".png");
      var d := path[14..|path| - 4];
      if AllDigits(d) then Some(d) else None
    else None
  }

  lemma DigitsOfPage(d: string)
    requires AllDigits(d) && d != []
    ensures PageDigits(PagePath(d)) == Some(d)
  {
    var path := PagePath(d);
    assert path[..14] == "previews/page-" && path[|path| - 4..] == ".png" && path[14..|path| - 4] == d;
  }

  predicate SvgObject(path: string) {
    && |path| == 27 && (StartsWith(path, "svg/objects/math-") || StartsWith(path, "svg/objects/tikz-"))
    && AllDigits(path[17..23]) && EndsWith(path, ".svg")
  }

  /** The paths of formula and drawing objects are numbered with six digits. */
  lemma SvgObjectShape(path: string)
    ensures SvgObject(path) <==>
            exists kind, number :: kind in {"math-", "tikz-"} && |number| == 6 && AllDigits(number)
                                   && path == SvgName(kind, number)
  {
    if SvgObject(path) {
      var kind, number := path[12..17], path[17..23];
      assert path == path[..12] + kind + number + path[23..];
      assert path[..12] == path[..17][..12] == "svg/objects/" && path[23..] == ".svg";
      assert kind == path[..17][12..] && kind in {"math-", "tikz-"};
      assert path == SvgName(kind, number);
    }
    if kind, number :| kind in {"math-", "tikz-"} && |number| == 6 && AllDigits(number)
                       && path == SvgName(kind, number) {
      assert path[..17] == "svg/objects/" + kind && path[17..23] == number && path[23..] == ".svg";
    }
  }

  function SvgName(kind: string, number: string): string {
    "svg/objects/" + kind + number + ".svg"
  }

  predicate GeneratedPath(path: string) {
    path in NAMED || path in SVG_DIAGNOSTICS || path == "svg/manifest.json" || PageDigits(path).Some? || SvgObject(path)
  }

  function Printed(platform: Platform, d: string): string
    requires AllDigits(d)
  {
    if Value(d) <= EXACT then Trimmed(d) else platform.beyond(d)
  }

  /** What one recorded path allows to be removed: itself, and the name under which a newer
      client saves the same page. */
  function Removable(platform: Platform, path: string): set<string> {
    if !GeneratedPath(path) then {}
    else
      var d := PageDigits(path);
      {path} + if d.Some? && Value(d.value) > 0 then {PagePath(Printed(platform, d.value))} else {}
  }

  /** The paths a client generates, written out: three files, four below svg/, and numbered
      pages and objects. */
  lemma GeneratedPathMeans(path: string)
    ensures GeneratedPath(path) <==>
            || path in {"result.pdf", "errors.json", "compile.log", "svg/manifest.json"}
            || path in {"svg/compile.log", "svg/errors.json", "svg/dependencies.json"}
            || (exists digits :: digits != [] && AllDigits(digits) && path == PagePath(digits))
            || (exists kind, number :: kind in {"math-", "tikz-"} && |number| == 6 && AllDigits(number)
                                       && path == SvgName(kind, number))
  {
    SvgObjectShape(path);
    if digits :| digits != [] && AllDigits(digits) && path == PagePath(digits) { DigitsOfPage(digits); }
    forall n ensures n in NAMED <==> n in {"result.pdf", "errors.json", "compile.log"} {
      assert NAMED[0] == "result.pdf" && NAMED[1] == "errors.json" && NAMED[2] == "compile.log";
    }
    forall n
      ensures n in SVG_DIAGNOSTICS <==> n in {"svg/compile.log", "svg/errors.json", "svg/dependencies.json"}
    {
      assert SVG_DIAGNOSTICS[0] == "svg/compile.log" && SVG_DIAGNOSTICS[1] == "svg/errors.json"
             && SVG_DIAGNOSTICS[2] == "svg/dependencies.json";
    }
  }

  /** A recorded path allows itself to be removed, if it is a generated one, and of the other
      generated paths only the unpadded name of the same page. */
  lemma RemovableMeans(platform: Platform, path: string, q: string)
    requires PageDigits(path).Some? ==> Value(PageDigits(path).value) <= EXACT
    ensures q in Removable(platform, path) <==>
            && GeneratedPath(path)
            && (q == path ||
                 (PageDigits(path).Some? && PageDigits(q).Some?
                    && 0 < Value(PageDigits(path).value) == Value(PageDigits(q).value)
                    && PageDigits(q).value[0] != '0'))
  {
    if PageDigits(path).Some? && Value(PageDigits(path).value) > 0 {
      var d := PageDigits(path).value;
      TrimmedValue(d);
      DigitsOfPage(Trimmed(d));
      if PageDigits(q).Some? && Value(PageDigits(q).value) == Value(d) && PageDigits(q).value[0] != '0' {
        SameNumber(d, PageDigits(q).value);
      }
    }
  }

  function Candidates(platform: Platform, paths: seq<string>): set<string> {
    if paths == [] then {}
    else Candidates(platform, paths[..|paths| - 1]) + Removable(platform, paths[|paths| - 1])
  }

  lemma {:induction false} CandidatesAre(platform: Platform, paths: seq<string>)
    ensures forall q :: q in Candidates(platform, paths) <==> exists p :: p in paths && q in Removable(platform, p)
    decreases |paths|
  {
    if paths != [] {
      var n := |paths| - 1;
      CandidatesAre(platform, paths[..n]);
      assert paths == paths[..n] + [paths[n]];
    }
  }

  /** The candidates of the previous download, or nothing without a job.json. */
  function Leftovers(platform: Platform, previous: Tree): set<string> {
    if "job.json" in previous && platform.read(previous["job.json"]).Some?
    then Candidates(platform, platform.read(previous["job.json"]).value)
    else {}
  }

  datatype Wanted = ByName(names: seq<string>) | SvgFiles

  predicate Wants(w: Wanted, a: Artifact) {
    match w
    case ByName(names) => a.relativePath in names
    case SvgFiles => a.kind == Svg || a.kind == SvgManifest
  }

  function SavedArtifacts(artifacts: seq<Artifact>, w: Wanted): Tree {
    if artifacts == [] then map[] else
      var a, front := artifacts[|artifacts| - 1], SavedArtifacts(artifacts[..|artifacts| - 1], w);
      if Wants(w, a) && a.content.Some? then front[a.relativePath := a.content.value] else front
  }

  /** The name a preview is saved under: its page number without padding. */
  function Canonical(a: Artifact): Option<string> {
    var d := PageDigits(a.relativePath);
    if a.kind == Preview && d.Some? && 1 <= Value(d.value) <= 100 then Some(PagePath(Trimmed(d.value))) else None
  }

  datatype File = File(path: string, content: string)

  function Collect(files: seq<File>): Tree {
    if files == [] then map[] else
      var f := files[|files| - 1];
      Collect(files[..|files| - 1])[f.path := f.content]
  }

  predicate DistinctFiles(files: seq<File>) {
    forall i, j :: 0 <= i < j < |files| ==> files[i].path != files[j].path
  }

  /** The files of the previews, unless one is not a page or does not arrive. */
  function PreviewFiles(previews: seq<Artifact>): (files: Option<seq<File>>)
    ensures files.Some? ==> |files.value| == |previews|
  {
    if previews == [] then Some([]) else
      var a, front := previews[|previews| - 1], PreviewFiles(previews[..|previews| - 1]);
      if front.Some? && Canonical(a).Some? && a.content.Some?
      then Some(front.value + [File(Canonical(a).value, a.content.value)])
      else None
  }

  predicate SvgPathOk(a: Artifact) {
    && (a.kind == SvgManifest ==> a.relativePath == "svg/manifest.json")
    && (a.kind == Svg ==> SvgObject(a.relativePath))
  }

  predicate DistinctPaths(artifacts: seq<Artifact>) {
    forall i, j :: 0 <= i < j < |artifacts| ==> artifacts[i].relativePath != artifacts[j].relativePath
  }

  predicate AllSaved(artifacts: seq<Artifact>, w: Wanted) {
    forall a :: a in artifacts && Wants(w, a) ==> a.content.Some?
  }

  predicate PreviewsOk(previews: seq<Artifact>) {
    PreviewFiles(previews).Some? && DistinctFiles(PreviewFiles(previews).value)
  }

  function SavedPreviews(previews: seq<Artifact>): Tree {
    if PreviewFiles(previews).Some? then Collect(PreviewFiles(previews).value) else map[]
  }

  predicate Obtainable(job: Job, pdfOnly: bool) {
    && AllSaved(job.artifacts, ByName(NAMED))
    && |job.previews| <= 100 && PreviewsOk(job.previews)
    && (!pdfOnly ==>
          && (forall a :: a in job.artifacts ==> SvgPathOk(a))
          && AllSaved(job.artifacts, SvgFiles) && AllSaved(job.artifacts, ByName(SVG_DIAGNOSTICS)))
  }

  /** The jobs a download accepts. */
  predicate Accepts(platform: Platform, previous: Tree, job: Job, pdfOnly: bool) {
    && DistinctPaths(job.artifacts) && Obtainable(job, pdfOnly)
    && ("job.json" in previous ==> platform.read(previous["job.json"]).Some?)
  }

  /** Everything the download writes except job.json. */
  function Written(job: Job, pdfOnly: bool): Tree {
    SavedArtifacts(job.artifacts, ByName(NAMED)) + SavedPreviews(job.previews)
    + if pdfOnly then map[]
      else SavedArtifacts(job.artifacts, SvgFiles) + SavedArtifacts(job.artifacts, ByName(SVG_DIAGNOSTICS))
  }

  /** The new set: the previous tree without what the previous download generated, under
      the new artifacts and the new job.json. */
  function Downloaded(platform: Platform, previous: Tree, job: Job, pdfOnly: bool): Option<Tree> {
    if Accepts(platform, previous, job, pdfOnly)
    then Some((previous - Leftovers(platform, previous) + Written(job, pdfOnly))["job.json" := job.text])
    else None
  }

  lemma {:induction false} SavedAt(artifacts: seq<Artifact>, w: Wanted, i: nat)
    requires DistinctPaths(artifacts) && i < |artifacts| && Wants(w, artifacts[i]) && artifacts[i].content.Some?
    ensures var p := artifacts[i].relativePath;
            p in SavedArtifacts(artifacts, w) && SavedArtifacts(artifacts, w)[p] == artifacts[i].content.value
    decreases |artifacts|
  {
    if i < |artifacts| - 1 { SavedAt(artifacts[..|artifacts| - 1], w, i); }
  }

  lemma {:induction false} SavedFrom(artifacts: seq<Artifact>, w: Wanted, p: string) returns (i: nat)
    requires p in SavedArtifacts(artifacts, w)
    ensures i < |artifacts| && Wants(w, artifacts[i]) && artifacts[i].content.Some? && artifacts[i].relativePath == p
    decreases |artifacts|
  {
    i := |artifacts| - 1;
    if !(Wants(w, artifacts[i]) && artifacts[i].content.Some? && artifacts[i].relativePath == p) {
      i := SavedFrom(artifacts[..i], w, p);
    }
  }

  lemma SavedAre(artifacts: seq<Artifact>, w: Wanted)
    requires DistinctPaths(artifacts)
    ensures forall p :: p in SavedArtifacts(artifacts, w) <==>
              exists a :: a in artifacts && Wants(w, a) && a.content.Some? && a.relativePath == p
    ensures forall a :: a in artifacts && Wants(w, a) && a.content.Some? ==>
              SavedArtifacts(artifacts, w)[a.relativePath] == a.content.value
  {
    forall a | a in artifacts && Wants(w, a) && a.content.Some?
      ensures a.relativePath in SavedArtifacts(artifacts, w)
      ensures SavedArtifacts(artifacts, w)[a.relativePath] == a.content.value
    {
      var i :| 0 <= i < |artifacts| && artifacts[i] == a;
      SavedAt(artifacts, w, i);
    }
    forall p | p in SavedArtifacts(artifacts, w)
      ensures exists a :: a in artifacts && Wants(w, a) && a.content.Some? && a.relativePath == p
    {
      var i := SavedFrom(artifacts, w, p);
      assert artifacts[i] in artifacts;
    }
  }

  lemma {:induction false} CollectAre(files: seq<File>)
    requires DistinctFiles(files)
    ensures forall p :: p in Collect(files) <==> exists i :: 0 <= i < |files| && files[i].path == p
    ensures forall i :: 0 <= i < |files| ==> Collect(files)[files[i].path] == files[i].content
    decreases |files|
  {
    if files != [] {
      CollectAre(files[..|files| - 1]);
    }
  }

  lemma {:induction false} PreviewFileAt(previews: seq<Artifact>, i: nat)
    requires PreviewFiles(previews).Some? && i < |previews|
    ensures var f := PreviewFiles(previews).value[i];
            Canonical(previews[i]) == Some(f.path) && previews[i].content == Some(f.content)
    decreases |previews|
  {
    if i < |previews| - 1 {
      PreviewFileAt(previews[..|previews| - 1], i);
    }
  }

  lemma {:induction false} PreviewPrefix(previews: seq<Artifact>, n: nat)
    requires PreviewFiles(previews).Some? && n <= |previews|
    ensures PreviewFiles(previews[..n]) == Some(PreviewFiles(previews).value[..n])
    decreases |previews|
  {
    if n < |previews| {
      var front := previews[..|previews| - 1];
      PreviewPrefix(front, n);
      assert front[..n] == previews[..n];
      assert PreviewFiles(front).value[..n] == PreviewFiles(previews).value[..n];
    } else {
      assert previews[..n] == previews && PreviewFiles(previews).value[..n] == PreviewFiles(previews).value;
    }
  }

  /** Two previews land on one file exactly when they are the same page, however their
      numbers are padded. */
  lemma PagesApart(a: Artifact, b: Artifact)
    requires Canonical(a).Some? && Canonical(b).Some?
    ensures Canonical(a) == Canonical(b) <==>
              Value(PageDigits(a.relativePath).value) == Value(PageDigits(b.relativePath).value)
  {
    var d, e := PageDigits(a.relativePath).value, PageDigits(b.relativePath).value;
    SameNumber(d, e);
    TrimmedValue(d);
    TrimmedValue(e);
    DigitsOfPage(Trimmed(d));
    DigitsOfPage(Trimmed(e));
  }

  /** A preview that a client takes: a page from 1 to 100 whose file arrives. */
  predicate IsPage(a: Artifact) {
    && a.kind == Preview && a.content.Some? && PageDigits(a.relativePath).Some?
    && 1 <= Value(PageDigits(a.relativePath).value) <= 100
  }

  predicate SamePage(a: Artifact, b: Artifact) {
    PageDigits(a.relativePath).Some? && PageDigits(b.relativePath).Some?
      && Value(PageDigits(a.relativePath).value) == Value(PageDigits(b.relativePath).value)
  }

  lemma {:induction false} AllPages(previews: seq<Artifact>)
    ensures PreviewFiles(previews).Some? <==> forall a :: a in previews ==> IsPage(a)
    decreases |previews|
  {
    if previews != [] {
      var n := |previews| - 1;
      AllPages(previews[..n]);
      assert previews == previews[..n] + [previews[n]];
      assert IsPage(previews[n]) <==> Canonical(previews[n]).Some? && previews[n].content.Some?;
      assert (forall a :: a in previews ==> IsPage(a)) <==>
             (forall a :: a in previews[..n] ==> IsPage(a)) && IsPage(previews[n]);
    }
  }

  /** The previews of a job are accepted exactly when all are pages that arrive and no page
      comes twice, however padded. */
  lemma PreviewsOkMeans(previews: seq<Artifact>)
    ensures PreviewsOk(previews) <==>
            && (forall a :: a in previews ==> IsPage(a))
            && forall i, j :: 0 <= i < j < |previews| ==> !SamePage(previews[i], previews[j])
  {
    AllPages(previews);
    if PreviewFiles(previews).Some? {
      var files := PreviewFiles(previews).value;
      forall i, j | 0 <= i < j < |previews|
        ensures files[i].path == files[j].path <==> SamePage(previews[i], previews[j])
      {
        PreviewFileAt(previews, i);
        PreviewFileAt(previews, j);
        PagesApart(previews[i], previews[j]);
      }
    }
  }

  /** A page is saved under its number without padding. */
  lemma PreviewName(a: Artifact)
    requires IsPage(a)
    ensures Canonical(a).Some? && PageDigits(Canonical(a).value).Some?
    ensures var d := PageDigits(Canonical(a).value).value;
            d[0] != '0' && Value(d) == Value(PageDigits(a.relativePath).value)
  {
    var d := PageDigits(a.relativePath).value;
    TrimmedValue(d);
    DigitsOfPage(Trimmed(d));
  }

  lemma CanonicalIsGenerated(a: Artifact)
    requires Canonical(a).Some?
    ensures PageDigits(Canonical(a).value).Some?
  {
    var d := PageDigits(a.relativePath).value;
    TrimmedValue(d);
    DigitsOfPage(Trimmed(d));
  }

  lemma NextName(artifacts: seq<Artifact>, names: seq<string>, n: string)
    requires DistinctPaths(artifacts)
    ensures var more := ByName(names + [n]);
            && (AllSaved(artifacts, more) <==>
                  AllSaved(artifacts, ByName(names)) && forall a :: a in artifacts && a.relativePath == n ==>
                      a.content.Some?)
            && (forall a :: a in artifacts && a.relativePath == n && a.content.Some? ==>
                  SavedArtifacts(artifacts, more) == SavedArtifacts(artifacts, ByName(names))[n := a.content.value])
            && ((forall a :: a in artifacts ==> a.relativePath != n) ==>
                 SavedArtifacts(artifacts, more) == SavedArtifacts(artifacts, ByName(names)))
  {
    SavedAre(artifacts, ByName(names));
    SavedAre(artifacts, ByName(names + [n]));
  }

  method DownloadNamed(artifacts: seq<Artifact>, names: seq<string>) returns (r: Option<Tree>)
    requires DistinctPaths(artifacts)
    ensures r == if AllSaved(artifacts, ByName(names)) then Some(SavedArtifacts(artifacts, ByName(names))) else None
  {
    var saved: Tree := map[];
    SavedAre(artifacts, ByName([]));
    for i := 0 to |names|
      invariant AllSaved(artifacts, ByName(names[..i])) && saved == SavedArtifacts(artifacts, ByName(names[..i]))
    {
      NextName(artifacts, names[..i], names[i]);
      assert names[..i + 1] == names[..i] + [names[i]];
      if exists a :: a in artifacts && a.relativePath == names[i] {
        var a :| a in artifacts && a.relativePath == names[i];
        if a.content == None {
          assert Wants(ByName(names), a);
          return None;
        }
        saved := saved[names[i] := a.content.value];
      }
    }
    assert names[..|names|] == names;
    r := Some(saved);
  }

  lemma NextFile(files: seq<File>, f: File)
    requires DistinctFiles(files)
    ensures f.path in Collect(files) <==> !DistinctFiles(files + [f])
    ensures Collect(files + [f]) == Collect(files)[f.path := f.content]
  {
    CollectAre(files);
    if f.path in Collect(files) {
      var k :| 0 <= k < |files| && files[k].path == f.path;
      assert (files + [f])[k].path == (files + [f])[|files|].path;
    }
  }

  lemma PrefixRejected(previews: seq<Artifact>, n: nat)
    requires n <= |previews| && !PreviewsOk(previews[..n])
    ensures !PreviewsOk(previews)
  {
    if PreviewFiles(previews).Some? { PreviewPrefix(previews, n); }
  }

  /** What one more preview does. */
  lemma NextPreview(previews: seq<Artifact>, i: nat)
    requires i < |previews| && PreviewsOk(previews[..i])
    ensures var name, a := Canonical(previews[i]), previews[i];
            && (PreviewsOk(previews[..i + 1]) <==>
                  name.Some? && a.content.Some? && name.value !in SavedPreviews(previews[..i]))
            && (PreviewsOk(previews[..i + 1]) ==>
                  SavedPreviews(previews[..i + 1]) == SavedPreviews(previews[..i])[name.value := a.content.value])
            && (!PreviewsOk(previews[..i + 1]) ==> !PreviewsOk(previews))
  {
    var name, a := Canonical(previews[i]), previews[i];
    assert previews[..i + 1][..i] == previews[..i];
    if name.Some? && a.content.Some? {
      NextFile(PreviewFiles(previews[..i]).value, File(name.value, a.content.value));
    }
    if !PreviewsOk(previews[..i + 1]) { PrefixRejected(previews, i + 1); }
  }

  method DownloadPreviews(previews: seq<Artifact>) returns (r: Option<Tree>)
    ensures r == if |previews| <= 100 && PreviewsOk(previews) then Some(SavedPreviews(previews)) else None
  {
    if |previews| > 100 { return None; }
    var saved: Tree := map[];
    for i := 0 to |previews|
      invariant PreviewsOk(previews[..i]) && saved == SavedPreviews(previews[..i])
    {
      var a := previews[i];
      var name := Canonical(a);
      NextPreview(previews, i);
      if name == None || a.content == None { return None; }
      if name.value in saved { return None; }
      saved := saved[name.value := a.content.value];
    }
    assert previews[..|previews|] == previews;
    r := Some(saved);
  }

  method DownloadSvg(artifacts: seq<Artifact>) returns (r: Option<Tree>)
    ensures r == if (forall a :: a in artifacts ==> SvgPathOk(a)) && AllSaved(artifacts, SvgFiles)
                 then Some(SavedArtifacts(artifacts, SvgFiles)) else None
    // Fails exactly for a file under another name than an object's or the manifest's, or for
    // one that does not arrive.
    ensures r == None <==>
            exists a :: a in artifacts && ((a.kind == Svg && (a.content == None || !SvgObject(a.relativePath)))
                || (a.kind == SvgManifest && (a.content == None || a.relativePath != "svg/manifest.json")))
  {
    var saved: Tree := map[];
    for i := 0 to |artifacts|
      invariant (forall a :: a in artifacts[..i] ==> SvgPathOk(a)) && AllSaved(artifacts[..i], SvgFiles)
      invariant saved == SavedArtifacts(artifacts[..i], SvgFiles)
    {
      var a := artifacts[i];
      assert artifacts[..i + 1][..i] == artifacts[..i];
      if Wants(SvgFiles, a) {
        if !SvgPathOk(a) || a.content == None { return None; }
        saved := saved[a.relativePath := a.content.value];
      }
    }
    assert artifacts[..|artifacts|] == artifacts;
    r := Some(saved);
  }

  /** Unlinks the recorded generated files that are not kept. */
  method PruneGeneratedArtifacts(platform: Platform, stage: Tree, keep: set<string>) returns (r: Option<Tree>)
    ensures r == if "job.json" in stage && platform.read(stage["job.json"]) == None then None
                 else Some(stage - (Leftovers(platform, stage) - keep))
  {
    if "job.json" !in stage {
      assert stage - ({} - keep) == stage;
      return Some(stage);
    }
    var paths := platform.read(stage["job.json"]);
    if paths == None { return None; }
    var candidates: set<string> := {};
    for i := 0 to |paths.value|
      invariant candidates == Candidates(platform, paths.value[..i])
    {
      candidates := candidates + Removable(platform, paths.value[i]);
      assert paths.value[..i + 1][..i] == paths.value[..i];
    }
    assert paths.value[..|paths.value|] == paths.value;
    assert candidates == Leftovers(platform, stage);
    var tree, todo := stage, candidates;
    while todo != {}
      invariant todo <= candidates && tree == stage - (candidates - todo - keep)
      decreases todo
    {
      var name :| name in todo;
      if name !in keep { tree := tree - {name}; }
      todo := todo - {name};
    }
    assert candidates - todo - keep == Leftovers(platform, stage) - keep;
    r := Some(tree);
  }

  lemma NotAPage(path: string)
    requires path != [] && path[0] != 'p'
    ensures PageDigits(path) == None
  {
  }

  lemma SvgIsNotAPage(path: string)
    requires SvgObject(path)
    ensures path[0] == 's'
  {
    assert path[..17][0] == path[0];
  }

  lemma SavedAreGenerated(artifacts: seq<Artifact>, w: Wanted)
    requires DistinctPaths(artifacts)
    requires w == ByName(NAMED) || w == ByName(SVG_DIAGNOSTICS)
               || (w == SvgFiles && forall a :: a in artifacts ==> SvgPathOk(a))
    ensures forall p :: p in SavedArtifacts(artifacts, w) ==> GeneratedPath(p) && PageDigits(p) == None
  {
    SavedAre(artifacts, w);
    forall p | p in SavedArtifacts(artifacts, w) ensures GeneratedPath(p) && PageDigits(p) == None {
      if SvgObject(p) { SvgIsNotAPage(p); }
      NotAPage(p);
    }
  }

  lemma PreviewsAreGenerated(previews: seq<Artifact>)
    requires PreviewsOk(previews)
    ensures forall p :: p in SavedPreviews(previews) ==> PageDigits(p).Some?
  {
    var files := PreviewFiles(previews).value;
    CollectAre(files);
    forall p | p in SavedPreviews(previews) ensures PageDigits(p).Some? {
      var i :| 0 <= i < |files| && files[i].path == p;
      PreviewFileAt(previews, i);
      CanonicalIsGenerated(previews[i]);
    }
  }

  /** The paths a download writes are generated ones, so job.json is not among them. */
  lemma WrittenAreGenerated(job: Job, pdfOnly: bool)
    requires DistinctPaths(job.artifacts) && Obtainable(job, pdfOnly)
    ensures forall p :: p in Written(job, pdfOnly) ==> GeneratedPath(p)
    ensures "job.json" !in Written(job, pdfOnly)
  {
    SavedAreGenerated(job.artifacts, ByName(NAMED));
    PreviewsAreGenerated(job.previews);
    if !pdfOnly {
      SavedAreGenerated(job.artifacts, SvgFiles);
      SavedAreGenerated(job.artifacts, ByName(SVG_DIAGNOSTICS));
    }
    if GeneratedPath("job.json") { NotAPage("job.json"); }
  }

  /** All downloads of one job, in the order of the source. */
  method DownloadAll(job: Job, pdfOnly: bool) returns (r: Option<Tree>)
    requires DistinctPaths(job.artifacts)
    ensures r.Some? <==> Obtainable(job, pdfOnly)
    ensures r.Some? ==> r.value == Written(job, pdfOnly)
  {
    var named := DownloadNamed(job.artifacts, NAMED);
    if named == None { return None; }
    var previews := DownloadPreviews(job.previews);
    if previews == None { return None; }
    if pdfOnly { return Some(named.value + previews.value + map[]); }
    var svg := DownloadSvg(job.artifacts);
    if svg == None { return None; }
    var diagnostics := DownloadNamed(job.artifacts, SVG_DIAGNOSTICS);
    if diagnostics == None { return None; }
    r := Some(named.value + previews.value + (svg.value + diagnostics.value));
  }

  lemma SameLeftovers(platform: Platform, previous: Tree, written: Tree)
    requires "job.json" !in written
    ensures var stage := previous + written;
            && ("job.json" in stage <==> "job.json" in previous)
            && ("job.json" in stage ==> stage["job.json"] == previous["job.json"])
            && stage - (Leftovers(platform, stage) - written.Keys) == previous - Leftovers(platform, previous) + written
  {
  }

  method StageArtifacts(platform: Platform, previous: Tree, job: Job, pdfOnly: bool) returns (r: Option<Tree>)
    ensures r == Downloaded(platform, previous, job, pdfOnly)
  {
    if exists i, j :: 0 <= i < j < |job.artifacts| && job.artifacts[i].relativePath == job.artifacts[j].relativePath {
      return None;
    }
    var saved := DownloadAll(job, pdfOnly);
    if saved == None { return None; }
    WrittenAreGenerated(job, pdfOnly);
    var stage := previous + saved.value;
    var pruned := PruneGeneratedArtifacts(platform, stage, saved.value.Keys);
    if pruned == None { return None; }
    SameLeftovers(platform, previous, saved.value);
    r := Some(pruned.value["job.json" := job.text]);
  }

  /** `downloadArtifacts`: the new set is built and published as one transaction. */
  method DownloadArtifacts(store: OutputStore, platform: Platform, job: Job, pdfOnly: bool, draft: Tree)
    returns (r: Publication, published: bool)
    requires store.Valid()
    modifies store
    ensures store.Valid()
    ensures Trusted(store.name, old(store.View())) && |job.artifacts| + |job.previews| <= 10_000 ==>
              Session(store.name, old(store.View()), store.View(),
                      Downloaded(platform, FilesOf(Settled(old(store.View()))), job, pdfOnly), r, published)
    ensures |job.artifacts| + |job.previews| > 10_000 ==> r == Failed && !published && store.View() == old(store.View())
    // A successful download leaves exactly the new set, and nothing on the way to it.
    ensures r == Saved && Trusted(store.name, old(store.View())) ==>
              Some(FilesOf(store.output)) == Downloaded(platform, FilesOf(Settled(old(store.View()))), job, pdfOnly)
    ensures Trusted(store.name, old(store.View())) && old(store.Steady()) ==>
              (r == Saved <==> |job.artifacts| + |job.previews| <= 10_000
                               && Accepts(platform, FilesOf(Settled(old(store.View()))), job, pdfOnly))
  {
    if |job.artifacts| + |job.previews| > 10_000 { return Failed, false; }
    r, published := store.PublishArtifactSet(t => Downloaded(platform, t, job, pdfOnly), draft, None);
  }

  /** What a successful download does to each path: new artifacts and job.json win, what
      the previous download generated goes, every other file keeps its contents. */
  lemma EachPath(platform: Platform, previous: Tree, job: Job, pdfOnly: bool, path: string)
    requires Accepts(platform, previous, job, pdfOnly) && path != "job.json"
    ensures var after := Downloaded(platform, previous, job, pdfOnly).value;
            && (path in after <==>
                  path in Written(job, pdfOnly) || (path in previous && path !in Leftovers(platform, previous)))
            && (path in after ==>
                  after[path] == if path in Written(job, pdfOnly) then Written(job, pdfOnly)[path] else previous[path])
    ensures path in Written(job, pdfOnly) ==> GeneratedPath(path)
  {
    WrittenAreGenerated(job, pdfOnly);
  }

  predicate Selected(a: Artifact, pdfOnly: bool) {
    || a.relativePath in NAMED
    || (!pdfOnly && (a.kind == Svg || a.kind == SvgManifest || a.relativePath in SVG_DIAGNOSTICS))
  }

  lemma SavedFromArtifact(artifacts: seq<Artifact>, w: Wanted, path: string)
    requires DistinctPaths(artifacts) && path in SavedArtifacts(artifacts, w)
    ensures exists a :: a in artifacts && Wants(w, a) && a.relativePath == path
  {
    SavedAre(artifacts, w);
  }

  /** Nothing else is written. */
  lemma NothingElse(job: Job, pdfOnly: bool, path: string)
    requires DistinctPaths(job.artifacts) && Obtainable(job, pdfOnly) && path in Written(job, pdfOnly)
    ensures || (exists a :: a in job.artifacts && Selected(a, pdfOnly) && a.relativePath == path)
            || (exists a :: a in job.previews && Canonical(a) == Some(path))
  {
    if path in SavedPreviews(job.previews) {
      var files := PreviewFiles(job.previews).value;
      CollectAre(files);
      var i :| 0 <= i < |files| && files[i].path == path;
      PreviewFileAt(job.previews, i);
      assert job.previews[i] in job.previews;
    } else if path in SavedArtifacts(job.artifacts, ByName(NAMED)) {
      SavedFromArtifact(job.artifacts, ByName(NAMED), path);
    } else if path in SavedArtifacts(job.artifacts, SvgFiles) {
      SavedFromArtifact(job.artifacts, SvgFiles, path);
    } else {
      SavedFromArtifact(job.artifacts, ByName(SVG_DIAGNOSTICS), path);
    }
  }

  lemma SavedIsOwn(artifacts: seq<Artifact>, w: Wanted, a: Artifact)
    requires DistinctPaths(artifacts) && a in artifacts && a.content.Some?
    ensures a.relativePath in SavedArtifacts(artifacts, w) <==> Wants(w, a)
    ensures Wants(w, a) ==> SavedArtifacts(artifacts, w)[a.relativePath] == a.content.value
  {
    SavedAre(artifacts, w);
  }

  lemma ArtifactArrives(job: Job, pdfOnly: bool, a: Artifact)
    requires DistinctPaths(job.artifacts) && Obtainable(job, pdfOnly) && a in job.artifacts && Selected(a, pdfOnly)
    ensures a.relativePath in Written(job, pdfOnly) && Some(Written(job, pdfOnly)[a.relativePath]) == a.content
  {
    assert a.content.Some?;
    SavedIsOwn(job.artifacts, ByName(NAMED), a);
    SavedAreGenerated(job.artifacts, ByName(NAMED));
    PreviewsAreGenerated(job.previews);
    if !pdfOnly {
      SavedIsOwn(job.artifacts, SvgFiles, a);
      SavedIsOwn(job.artifacts, ByName(SVG_DIAGNOSTICS), a);
    }
    assert Wants(ByName(NAMED), a) ==> a.relativePath !in SavedPreviews(job.previews);
  }

  lemma PreviewArrives(job: Job, pdfOnly: bool, a: Artifact)
    requires DistinctPaths(job.artifacts) && Obtainable(job, pdfOnly) && a in job.previews
    ensures Canonical(a).Some? && Canonical(a).value in Written(job, pdfOnly)
              && Some(Written(job, pdfOnly)[Canonical(a).value]) == a.content
  {
    var files := PreviewFiles(job.previews).value;
    var i :| 0 <= i < |job.previews| && job.previews[i] == a;
    PreviewFileAt(job.previews, i);
    CollectAre(files);
    assert Collect(files)[files[i].path] == files[i].content;
    PreviewsAreGenerated(job.previews);
    if !pdfOnly {
      SavedAreGenerated(job.artifacts, SvgFiles);
      SavedAreGenerated(job.artifacts, ByName(SVG_DIAGNOSTICS));
    }
  }

  /** No part of a download overwrites another: every wanted artifact arrives under its own
      path and every preview under its canonical name. */
  lemma EachArtifact(job: Job, pdfOnly: bool, a: Artifact)
    requires DistinctPaths(job.artifacts) && Obtainable(job, pdfOnly)
    ensures a in job.artifacts && Selected(a, pdfOnly) ==>
              a.relativePath in Written(job, pdfOnly) && Some(Written(job, pdfOnly)[a.relativePath]) == a.content
    ensures a in job.previews ==>
              Canonical(a).Some? && Canonical(a).value in Written(job, pdfOnly)
                  && Some(Written(job, pdfOnly)[Canonical(a).value]) == a.content
  {
    if a in job.previews {
      PreviewArrives(job, pdfOnly, a);
    }
    if a in job.artifacts && Selected(a, pdfOnly) {
      ArtifactArrives(job, pdfOnly, a);
    }
  }

  /** The relative paths a job.json lists. */
  function RecordedPaths(items: seq<Artifact>): seq<string> {
    seq(|items|, i requires 0 <= i < |items| => items[i].relativePath)
  }

  lemma ArtifactIsRecorded(platform: Platform, items: seq<Artifact>, a: Artifact)
    requires a in items
    ensures Removable(platform, a.relativePath) <= Candidates(platform, RecordedPaths(items))
  {
    var i :| 0 <= i < |items| && items[i] == a;
    assert RecordedPaths(items)[i] == a.relativePath;
    CandidatesAre(platform, RecordedPaths(items));
  }

  lemma SavedIsRemovable(platform: Platform, items: seq<Artifact>, artifacts: seq<Artifact>, w: Wanted, path: string)
    requires DistinctPaths(artifacts) && (forall a :: a in artifacts ==> a in items)
    requires path in SavedArtifacts(artifacts, w) && GeneratedPath(path)
    ensures path in Candidates(platform, RecordedPaths(items))
  {
    SavedAre(artifacts, w);
    var a :| a in artifacts && a.relativePath == path;
    ArtifactIsRecorded(platform, items, a);
  }

  lemma PreviewIsRemovable(platform: Platform, items: seq<Artifact>, previews: seq<Artifact>, path: string)
    requires PreviewsOk(previews) && (forall a :: a in previews ==> a in items)
    requires path in SavedPreviews(previews)
    ensures path in Candidates(platform, RecordedPaths(items))
  {
    var files := PreviewFiles(previews).value;
    CollectAre(files);
    var i :| 0 <= i < |files| && files[i].path == path;
    PreviewFileAt(previews, i);
    assert path in Removable(platform, previews[i].relativePath);
    ArtifactIsRecorded(platform, items, previews[i]);
  }

  lemma WrittenIsRemovable(platform: Platform, job: Job, pdfOnly: bool, path: string)
    requires DistinctPaths(job.artifacts) && Obtainable(job, pdfOnly) && path in Written(job, pdfOnly)
    ensures path in Candidates(platform, RecordedPaths(job.artifacts + job.previews))
  {
    WrittenAreGenerated(job, pdfOnly);
    var items := job.artifacts + job.previews;
    if path in SavedPreviews(job.previews) {
      PreviewIsRemovable(platform, items, job.previews, path);
    } else if path in SavedArtifacts(job.artifacts, ByName(NAMED)) {
      SavedIsRemovable(platform, items, job.artifacts, ByName(NAMED), path);
    } else if path in SavedArtifacts(job.artifacts, SvgFiles) {
      SavedIsRemovable(platform, items, job.artifacts, SvgFiles, path);
    } else {
      SavedIsRemovable(platform, items, job.artifacts, ByName(SVG_DIAGNOSTICS), path);
    }
  }

  /** Nothing of one download outlives the next: of the first job's files exactly those
      remain that the second job writes again. */
  lemma NothingLeftBehind(platform: Platform, previous: Tree, first: Job, second: Job, pdfOnly: bool, pdfOnly': bool,
                          path: string)
    requires Accepts(platform, previous, first, pdfOnly)
    requires platform.read(first.text) == Some(RecordedPaths(first.artifacts + first.previews))
    requires Accepts(platform, Downloaded(platform, previous, first, pdfOnly).value, second, pdfOnly')
    requires path in Written(first, pdfOnly)
    ensures path in Downloaded(platform, Downloaded(platform, previous, first, pdfOnly).value, second, pdfOnly').value
            <==> path in Written(second, pdfOnly')
  {
    WrittenIsRemovable(platform, first, pdfOnly, path);
    WrittenAreGenerated(first, pdfOnly);
    EachPath(platform, Downloaded(platform, previous, first, pdfOnly).value, second, pdfOnly', path);
  }

  lemma PageNames(page: string)
    ensures GeneratedPath(PagePath(page)) <==> page != [] && AllDigits(page)
  {
    var path := PagePath(page);
    assert path[0] == 'p' && path[1] == 'r' && path[14..|path| - 4] == page;
    if page != [] && AllDigits(page) { DigitsOfPage(page); }
  }

  /** The first page number that JavaScript does not print in digits: it and everything
      above rounds to 10^21 or more, which is printed with an exponent. */
  const FIRST_UNPRINTABLE := 1_000_000_000_000_000_000_000 - 65_536

  /** How JavaScript prints page numbers too large to be exact. */
  ghost predicate JavaScript(platform: Platform) {
    forall d :: AllDigits(d) && Value(d) > EXACT ==>
      (platform.beyond(d) != [] && AllDigits(platform.beyond(d)) <==> Value(d) < FIRST_UNPRINTABLE)
  }

  predicate Printable(p: string) {
    PageDigits(p).Some? ==> Value(PageDigits(p).value) < FIRST_UNPRINTABLE
  }

  /** Only generated paths are ever removed, exactly when every recorded page is below
      10^21 - 65536. */
  lemma OnlyGeneratedAreRemoved(platform: Platform, paths: seq<string>)
    requires JavaScript(platform)
    ensures (forall q :: q in Candidates(platform, paths) ==> GeneratedPath(q)) <==>
            forall p :: p in paths ==> Printable(p)
  {
    CandidatesAre(platform, paths);
    forall p | p in paths ensures (forall q :: q in Removable(platform, p) ==> GeneratedPath(q)) <==> Printable(p) {
      OnePath(platform, p);
    }
  }

  lemma OnePath(platform: Platform, p: string)
    requires JavaScript(platform)
    ensures (forall q :: q in Removable(platform, p) ==> GeneratedPath(q)) <==> Printable(p)
  {
    if PageDigits(p).Some? && Value(PageDigits(p).value) > 0 {
      var d := PageDigits(p).value;
      PageNames(Printed(platform, d));
      TrimmedValue(d);
      assert PagePath(Printed(platform, d)) in Removable(platform, p);
    }
  }

  /** It fails: JavaScript prints 10^21 as 1e+21, so a recorded page of 22 digits has a file
      removed whose name no download generates. */
  lemma HugePageReachesUserFile(platform: Platform)
    requires platform.beyond("1000000000000000000000") == "1e+21"
    ensures PagePath("1e+21") in Candidates(platform, [PagePath("1000000000000000000000")])
    ensures !GeneratedPath(PagePath("1e+21"))
  {
    var d := "1000000000000000000000";
    DigitsOfPage(d);
    AtLeastPower(d);
    SixteenZeros();
    PowerGrows(16, 21);
    assert [PagePath(d)][..0] == [];
    PageNames("1e+21");
    assert "1e+21"[1] == 'e' && !IsDigit('e');
  }
}
