/** `FastlaneTranslator` of the plugin package: Fastlane metadata is a tree of
    locale folders under `metadataRoot`, each holding `.txt` files. The source
    folder's files are translated into every target folder, but only where the
    target file does not exist yet. */
module Fastlane {
  import opened Wrappers
  import opened Text
  import opened Ordering
  import opened FileTrees
  import opened Locales
  import opened TranslationServices
  import TestService

  /** `findLocaleFolder(srcLang)`: the first folder name that decodes to
      exactly `src` (all four parts of the locale compared). */
  function FindLocaleFolder(names: seq<string>, src: Locale, catalog: seq<Locale>): (r: Option<string>)
    ensures r.Some? ==> r.value in names && ToIsoLocale(r.value, catalog) == Some(src)
    ensures r.Some? ==> exists i | 0 <= i < |names| :: names[i] == r.value
                          && forall j | 0 <= j < i :: ToIsoLocale(names[j], catalog) != Some(src)
    ensures r.None? <==> forall n | n in names :: ToIsoLocale(n, catalog) != Some(src)
  {
    var i := FirstDecoding(names, src, catalog, 0);
    if i == |names| then None else Some(names[i])
  }

  /** Index of the first name from `from` on that decodes to `src`, or |names|. */
  function FirstDecoding(names: seq<string>, src: Locale, catalog: seq<Locale>, from: nat): (i: nat)
    requires from <= |names|
    ensures from <= i <= |names|
    ensures forall j | from <= j < i :: ToIsoLocale(names[j], catalog) != Some(src)
    ensures i < |names| ==> ToIsoLocale(names[i], catalog) == Some(src)
    decreases |names| - from
  {
    if from == |names| then from
    else if ToIsoLocale(names[from], catalog) == Some(src) then from
    else FirstDecoding(names, src, catalog, from + 1)
  }

  /** The target codes: the explicit set sorted, with no exclusion applied;
      without one, every folder name not excluded, sorted. */
  function TargetCodes(languages: seq<string>, names: seq<string>, exclude: seq<string>): (r: seq<string>)
    ensures Sorted(r)
    ensures languages != [] ==> multiset(r) == multiset(languages)
    ensures languages == [] ==> forall c :: c in r <==> c in names && c !in exclude
    ensures (if languages != [] then Distinct(languages) else Distinct(names)) ==> Distinct(r)
  {
    if languages != [] then
      SortKeeps(languages);
      Sort(languages)
    else
      var u := Unexcluded(names, exclude);
      SortKeeps(u);
      Sort(u)
  }

  /** Sorting keeps the elements, and keeps them apart when they were. */
  lemma SortKeeps(xs: seq<string>)
    ensures forall x :: x in Sort(xs) <==> x in xs
    ensures Distinct(xs) ==> Distinct(Sort(xs))
  {
    forall x ensures x in Sort(xs) <==> x in xs {
      assert x in Sort(xs) <==> x in multiset(Sort(xs));
      assert x in xs <==> x in multiset(xs);
    }
    if Distinct(xs) {
      SortDistinct(xs);
    }
  }

  /** A target: the decoded locale and the folder code it came from. */
  datatype Target = Target(locale: Locale, code: string)

  predicate DistinctCodes(ts: seq<Target>) {
    forall i, j | 0 <= i < j < |ts| :: ts[i].code != ts[j].code
  }

  /** `mapNotNull { toIsoLocale }` then `filter { code != sourceCode }`: the
      decodable codes other than the source folder's, in order. */
  function Targets(codes: seq<string>, catalog: seq<Locale>, sourceCode: string): (r: seq<Target>)
    ensures forall tg | tg in r :: tg.code in codes && tg.code != sourceCode
                                   && ToIsoLocale(tg.code, catalog) == Some(tg.locale)
    ensures forall c | c in codes && c != sourceCode && ToIsoLocale(c, catalog).Some? ::
              Target(ToIsoLocale(c, catalog).value, c) in r
    ensures Distinct(codes) ==> DistinctCodes(r)
  {
    if codes == [] then []
    else
      var rest := Targets(codes[1..], catalog, sourceCode);
      var c := codes[0];
      assert forall x :: x in codes <==> x == c || x in codes[1..];
      match ToIsoLocale(c, catalog)
      case None => rest
      case Some(l) =>
        if c == sourceCode then rest
        else
          assert Distinct(codes) ==> c !in codes[1..];
          [Target(l, c)] + rest
  }

  /** `f` lies strictly below the directory `dir`. */
  predicate Under(f: Path, dir: Path) {
    |dir| < |f| && f[..|dir|] == dir
  }

  /** What a run works with once the source folder is known: the folder, its
      `.txt` files in walk order, and the targets. */
  datatype Plan = Plan(sourceDir: Path, sourceFiles: seq<Path>, targets: seq<Target>)

  /** A plan for the folder `root`, read from tree `t`. */
  predicate PlanFor(t: Tree<string>, root: Path, src: Locale, catalog: seq<Locale>, p: Plan) {
    && |p.sourceDir| == |root| + 1 && p.sourceDir[..|root|] == root
    && p.sourceDir in t.dirs
    && ToIsoLocale(p.sourceDir[|root|], catalog) == Some(src)
    && p.sourceFiles != [] && Distinct(p.sourceFiles)
    && (forall f | f in p.sourceFiles :: Under(f, p.sourceDir) && IsTxt(f) && f in t.files)
    && (forall tg | tg in p.targets :: tg.code != p.sourceDir[|root|])
  }

  /** The steps both entry points share: list the locale folders, find the
      source folder and its `.txt` files, resolve the targets. None when there
      is no folder, no source folder or no `.txt` file in it. */
  function MakePlan(t: Tree<string>, root: Path, src: Locale, languages: seq<string>,
                    exclude: seq<string>, catalog: seq<Locale>): (r: Option<Plan>)
    requires t.Valid()
    ensures r.Some? ==> PlanFor(t, root, src, catalog, r.value)
    ensures r.Some? ==> forall f :: f in r.value.sourceFiles <==>
                          f in t.files && Under(f, r.value.sourceDir) && IsTxt(f)
    ensures r.Some? && (if languages != [] then Distinct(languages) else true) ==> DistinctCodes(r.value.targets)
    ensures (forall n :: root + [n] in t.dirs ==> ToIsoLocale(n, catalog) != Some(src)) ==> r.None?
  {
    var names := SubdirNames(t.dirs, root);
    if names == [] then None
    else
      match FindLocaleFolder(names, src, catalog)
      case None => None
      case Some(code) =>
        var dir := root + [code];
        var files := TxtFilesUnder(t.order, dir);
        if files == [] then None
        else
          assert dir[..|root|] == root && dir[|root|] == code;
          Some(Plan(dir, files, Targets(TargetCodes(languages, names, exclude), catalog, code)))
  }

  /** `File(metadataRoot, "$targetCode/$relative")` for the source file `f`. */
  function Output(root: Path, code: string, dir: Path, f: Path): (out: Path)
    requires Under(f, dir)
    ensures |out| > |root| && out[..|root|] == root && out[|root|] == code
  {
    root + [code] + f[|dir|..]
  }

  /** Different source files have different outputs for a code. */
  lemma OutputInjective(root: Path, code: string, dir: Path, f: Path, g: Path)
    requires Under(f, dir) && Under(g, dir) && f != g
    ensures Output(root, code, dir, f) != Output(root, code, dir, g)
  {
    assert f == dir + f[|dir|..];
    assert g == dir + g[|dir|..];
    assert Output(root, code, dir, f)[|root| + 1..] == f[|dir|..];
    assert Output(root, code, dir, g)[|root| + 1..] == g[|dir|..];
  }

  lemma OutputFresh(root: Path, code: string, dir: Path, f: Path, fs: seq<Path>, outs: seq<Path>)
    requires Under(f, dir) && forall g | g in fs :: Under(g, dir)
    requires |outs| == |fs| && forall i | 0 <= i < |fs| :: outs[i] == Output(root, code, dir, fs[i])
    ensures f !in fs ==> Output(root, code, dir, f) !in outs
  {
    if f !in fs {
      forall i | 0 <= i < |fs| ensures outs[i] != Output(root, code, dir, f) {
        OutputInjective(root, code, dir, fs[i], f);
      }
    }
  }

  /** `mappings.filter { !out.exists() }`: the source files whose output for
      `code` does not exist, in order. */
  function Missing(t: Tree<string>, root: Path, code: string, dir: Path, files: seq<Path>): (r: seq<Path>)
    requires forall f | f in files :: Under(f, dir)
    ensures forall f :: f in r <==> f in files && !t.Exists(Output(root, code, dir, f))
    ensures Distinct(files) ==> Distinct(r)
  {
    if files == [] then []
    else
      var rest := Missing(t, root, code, dir, files[1..]);
      assert forall f :: f in files <==> f == files[0] || f in files[1..];
      if t.Exists(Output(root, code, dir, files[0])) then rest
      else
        assert Distinct(files) ==> files[0] !in files[1..];
        [files[0]] + rest
  }

  /** The output paths of `files` for `code`. */
  function Outputs(root: Path, code: string, dir: Path, files: seq<Path>): (r: seq<Path>)
    requires forall f | f in files :: Under(f, dir)
    ensures |r| == |files|
    ensures forall i | 0 <= i < |files| :: r[i] == Output(root, code, dir, files[i])
    ensures Distinct(files) ==> Distinct(r)
  {
    if files == [] then []
    else
      var rest := Outputs(root, code, dir, files[1..]);
      OutputFresh(root, code, dir, files[0], files[1..], rest);
      [Output(root, code, dir, files[0])] + rest
  }

  /** The missing outputs of one target. */
  function TargetMissing(t: Tree<string>, root: Path, p: Plan, tg: Target): (r: seq<Path>)
    requires forall f | f in p.sourceFiles :: Under(f, p.sourceDir)
    ensures forall q | q in r :: !t.Exists(q) && |q| > |root| && q[..|root|] == root && q[|root|] == tg.code
  {
    var m := Missing(t, root, tg.code, p.sourceDir, p.sourceFiles);
    var outs := Outputs(root, tg.code, p.sourceDir, m);
    assert forall q | q in outs :: exists i | 0 <= i < |m| :: q == Output(root, tg.code, p.sourceDir, m[i]);
    outs
  }

  /** The missing outputs of each target in turn, concatenated. */
  function AllMissing(t: Tree<string>, root: Path, p: Plan, targets: seq<Target>): (r: seq<Path>)
    requires forall f | f in p.sourceFiles :: Under(f, p.sourceDir)
    ensures forall q | q in r :: !t.Exists(q) && |q| > |root| && q[..|root|] == root
  {
    if targets == [] then []
    else AllMissing(t, root, p, targets[..|targets| - 1]) + TargetMissing(t, root, p, targets[|targets| - 1])
  }

  /** `resolveTargets(metadataRoot, srcLang, targetLanguages, excludeLanguages)`:
      the output files a run would create, target by target; empty when the
      root does not exist or there is nothing to translate. */
  function ResolvedOutputs(t: Tree<string>, root: Path, src: Locale, languages: seq<string>,
                           exclude: seq<string>, catalog: seq<Locale>): (r: seq<Path>)
    requires t.Valid()
    ensures forall q | q in r :: !t.Exists(q) && |q| > |root| && q[..|root|] == root
    ensures !t.Exists(root) ==> r == []
  {
    if !t.Exists(root) then []
    else
      match MakePlan(t, root, src, languages, exclude, catalog)
      case None => []
      case Some(p) => AllMissing(t, root, p, p.targets)
  }

  /** `resolveTargets` on the file system: `missingOutputs` grows target by target. */
  method ResolveTargets(fs: FileSystem<string>, root: Path, src: Locale, languages: seq<string>,
                        exclude: seq<string>, catalog: seq<Locale>) returns (outs: seq<Path>)
    requires fs.State().Valid()
    ensures outs == ResolvedOutputs(fs.State(), root, src, languages, exclude, catalog)
  {
    var t := fs.State();
    if !(root in fs.dirs || root in fs.files) {
      return [];
    }
    var plan := MakePlan(t, root, src, languages, exclude, catalog);
    if plan.None? {
      return [];
    }
    outs := CollectMissing(t, root, plan.value);
  }

  /** The loop of `resolveTargets`: each target's missing outputs appended in turn. */
  method CollectMissing(t: Tree<string>, root: Path, p: Plan) returns (outs: seq<Path>)
    requires forall f | f in p.sourceFiles :: Under(f, p.sourceDir)
    ensures outs == AllMissing(t, root, p, p.targets)
  {
    outs := [];
    for i := 0 to |p.targets|
      invariant outs == AllMissing(t, root, p, p.targets[..i])
    {
      AllMissingSnoc(t, root, p, p.targets, i);
      var code := p.targets[i].code;
      var missing := Missing(t, root, code, p.sourceDir, p.sourceFiles);
      outs := outs + Outputs(root, code, p.sourceDir, missing);
    }
    assert p.targets[..|p.targets|] == p.targets;
  }

  lemma AllMissingSnoc(t: Tree<string>, root: Path, p: Plan, targets: seq<Target>, i: nat)
    requires forall f | f in p.sourceFiles :: Under(f, p.sourceDir)
    requires i < |targets|
    ensures AllMissing(t, root, p, targets[..i + 1]) == AllMissing(t, root, p, targets[..i]) + TargetMissing(t, root, p, targets[i])
  {
    assert targets[..i + 1][..i] == targets[..i];
  }

  /** `missing.map { src.readText() }`. */
  function Contents(t: Tree<string>, files: seq<Path>): (r: seq<string>)
    requires forall f | f in files :: f in t.files
    ensures |r| == |files|
    ensures forall i | 0 <= i < |files| :: r[i] == t.files[files[i]]
  {
    if files == [] then [] else [t.files[files[0]]] + Contents(t, files[1..])
  }

  /** The i-th text written to the i-th path, one after another. */
  function WriteAll(t: Tree<string>, outs: seq<Path>, texts: seq<string>): (r: Tree<string>)
    requires t.Valid() && |outs| == |texts|
    ensures r.Valid() && r.dirs == t.dirs
    ensures forall q :: q in r.files <==> q in t.files || q in outs
    ensures forall q | q in t.files && q !in outs :: r.files[q] == t.files[q]
    ensures Distinct(outs) ==> forall i | 0 <= i < |outs| :: r.files[outs[i]] == texts[i]
  {
    if outs == [] then t
    else
      var n := |outs| - 1;
      var before := WriteAll(t, outs[..n], texts[..n]);
      WriteAllLast(t, outs, texts, before);
      before.Write(outs[n], texts[n])
  }

  /** The last write of `WriteAll`, given what the earlier ones did. */
  lemma WriteAllLast(t: Tree<string>, outs: seq<Path>, texts: seq<string>, before: Tree<string>)
    requires t.Valid() && |outs| == |texts| && outs != [] && before.Valid() && before.dirs == t.dirs
    requires var o := outs[..|outs| - 1];
             && (forall q :: q in before.files <==> q in t.files || q in o)
             && (forall q | q in t.files && q !in o :: before.files[q] == t.files[q])
             && (Distinct(o) ==> forall i | 0 <= i < |o| :: before.files[o[i]] == texts[..|outs| - 1][i])
    ensures var r := before.Write(outs[|outs| - 1], texts[|outs| - 1]);
            && (forall q :: q in r.files <==> q in t.files || q in outs)
            && (forall q | q in t.files && q !in outs :: r.files[q] == t.files[q])
            && (Distinct(outs) ==> forall i | 0 <= i < |outs| :: r.files[outs[i]] == texts[i])
  {
    var n := |outs| - 1;
    var o, x := outs[..n], texts[..n];
    assert forall q :: q in outs <==> q in o || q == outs[n] by {
      assert outs == o + [outs[n]];
    }
    if Distinct(outs) {
      assert Distinct(o);
      forall i | 0 <= i < n ensures o[i] != outs[n] && o[i] == outs[i] && x[i] == texts[i] {
      }
    }
  }

  /** Why a run stops: the metadata root is missing, or the provider answered
      a target with more texts than there were missing files (the index into
      `missing` goes out of bounds after the others are written). */
  datatype FastlaneError = MissingRoot(root: Path) | TooManyResults(code: string)

  /** The file tree a run leaves, and the error that ended it, if any. */
  datatype Run = Run(tree: Tree<string>, error: Option<FastlaneError>)

  /** The source files are readable files under the source folder. */
  predicate Fits(t: Tree<string>, p: Plan) {
    forall f | f in p.sourceFiles :: f in t.files && Under(f, p.sourceDir)
  }

  /** One target: nothing missing means no provider call; a provider failure
      skips the target; otherwise the i-th answer goes to the i-th missing
      output, and an answer beyond the missing outputs is fatal. */
  function TargetStep(t: Tree<string>, root: Path, p: Plan, s: Service, src: Locale, tg: Target): (r: Run)
    requires t.Valid() && Fits(t, p)
    ensures r.tree.Valid() && r.tree.dirs == t.dirs && Fits(r.tree, p)
    ensures forall q | q in t.files :: q in r.tree.files
  {
    var missing := Missing(t, root, tg.code, p.sourceDir, p.sourceFiles);
    if missing == [] then Run(t, None)
    else
      match TranslateBatch(s, Contents(t, missing), PlainText, src, tg.locale)
      case Failure(_) => Run(t, None)
      case Success(translated) => WriteAnswers(t, Outputs(root, tg.code, p.sourceDir, missing), translated, tg.code)
  }

  /** `translated.forEachIndexed { i, text -> outs[i].writeText(text) }`: the
      answers go to the outputs in order; an answer beyond the last output
      is fatal, after the others are written. */
  function WriteAnswers(t: Tree<string>, outs: seq<Path>, translated: seq<string>, code: string): (r: Run)
    requires t.Valid()
    ensures r.tree.Valid() && r.tree.dirs == t.dirs
    ensures forall q | q in t.files :: q in r.tree.files
    ensures forall q | q in r.tree.files :: q in t.files || q in outs
  {
    var n := if |translated| < |outs| then |translated| else |outs|;
    assert forall q | q in outs[..n] :: q in outs;
    Run(WriteAll(t, outs[..n], translated[..n]), if |translated| > |outs| then Some(TooManyResults(code)) else None)
  }

  /** `targets.forEach { ... }`, stopped by the first fatal error. */
  function RunTargets(t: Tree<string>, root: Path, p: Plan, s: Service, src: Locale, targets: seq<Target>): (r: Run)
    requires t.Valid() && Fits(t, p)
    ensures r.tree.Valid() && r.tree.dirs == t.dirs && Fits(r.tree, p)
    ensures forall q | q in t.files :: q in r.tree.files
  {
    if targets == [] then Run(t, None)
    else
      var before := RunTargets(t, root, p, s, src, targets[..|targets| - 1]);
      if before.error.Some? then before
      else TargetStep(before.tree, root, p, s, src, targets[|targets| - 1])
  }

  /** `translate(metadataRoot, service, srcLang, targetLanguages, excludeLanguages)`. */
  function Translation(t: Tree<string>, root: Path, s: Service, src: Locale, languages: seq<string>,
                       exclude: seq<string>, catalog: seq<Locale>): (r: Run)
    requires t.Valid()
    ensures r.tree.Valid() && r.tree.dirs == t.dirs
    ensures forall q | q in t.files :: q in r.tree.files
  {
    if !t.Exists(root) then Run(t, Some(MissingRoot(root)))
    else
      match MakePlan(t, root, src, languages, exclude, catalog)
      case None => Run(t, None)
      case Some(p) => RunTargets(t, root, p, s, src, p.targets)
  }

  /** Writes the answers to the missing outputs in order; returns true when
      there were more answers than outputs. */
  method WriteTranslated(fs: FileSystem<string>, outs: seq<Path>, translated: seq<string>) returns (overflow: bool)
    requires fs.State().Valid()
    modifies fs
    ensures var n := if |translated| < |outs| then |translated| else |outs|;
            fs.State() == WriteAll(old(fs.State()), outs[..n], translated[..n])
    ensures overflow <==> |translated| > |outs|
  {
    ghost var t0 := fs.State();
    for i := 0 to |translated|
      invariant i <= |outs|
      invariant fs.State() == WriteAll(t0, outs[..i], translated[..i])
    {
      if i == |outs| {
        return true;
      }
      WriteAllSnoc(t0, outs, translated, i);
      fs.WriteFile(outs[i], translated[i]);
    }
    overflow := false;
  }

  lemma WriteAllSnoc(t: Tree<string>, outs: seq<Path>, texts: seq<string>, i: nat)
    requires t.Valid() && i < |outs| && i < |texts|
    ensures WriteAll(t, outs[..i + 1], texts[..i + 1]) == WriteAll(t, outs[..i], texts[..i]).Write(outs[i], texts[i])
  {
    var o, x := outs[..i + 1], texts[..i + 1];
    assert o[..i] == outs[..i] && x[..i] == texts[..i];
    assert o[i] == outs[i] && x[i] == texts[i];
  }

  /** One target on the file system. */
  method TranslateTarget(fs: FileSystem<string>, root: Path, p: Plan, s: Service, src: Locale, tg: Target)
    returns (error: Option<FastlaneError>)
    requires fs.State().Valid() && Fits(fs.State(), p)
    modifies fs
    ensures Run(fs.State(), error) == TargetStep(old(fs.State()), root, p, s, src, tg)
  {
    var t := fs.State();
    var missing := Missing(t, root, tg.code, p.sourceDir, p.sourceFiles);
    if missing == [] {
      return None;
    }
    var contents := Contents(t, missing);
    var answer := TranslateBatch(s, contents, PlainText, src, tg.locale);
    if answer.Failure? {
      return None;
    }
    var outs := Outputs(root, tg.code, p.sourceDir, missing);
    var overflow := WriteTranslated(fs, outs, answer.value);
    error := if overflow then Some(TooManyResults(tg.code)) else None;
  }

  /** `translate` on the file system. */
  method Translate(fs: FileSystem<string>, root: Path, s: Service, src: Locale, languages: seq<string>,
                   exclude: seq<string>, catalog: seq<Locale>) returns (error: Option<FastlaneError>)
    requires fs.State().Valid()
    modifies fs
    ensures Run(fs.State(), error) == Translation(old(fs.State()), root, s, src, languages, exclude, catalog)
  {
    if !(root in fs.dirs || root in fs.files) {
      return Some(MissingRoot(root));
    }
    var plan := MakePlan(fs.State(), root, src, languages, exclude, catalog);
    if plan.None? {
      return None;
    }
    error := TranslateTargets(fs, root, plan.value, s, src);
  }

  /** The loop of `translate`: each target in turn, until a fatal error. */
  method TranslateTargets(fs: FileSystem<string>, root: Path, p: Plan, s: Service, src: Locale)
    returns (error: Option<FastlaneError>)
    requires fs.State().Valid() && Fits(fs.State(), p)
    modifies fs
    ensures Run(fs.State(), error) == RunTargets(old(fs.State()), root, p, s, src, p.targets)
  {
    ghost var t0 := fs.State();
    for i := 0 to |p.targets|
      invariant fs.State().Valid() && Fits(fs.State(), p)
      invariant RunTargets(t0, root, p, s, src, p.targets[..i]) == Run(fs.State(), None)
    {
      RunTargetsSnoc(t0, root, p, s, src, p.targets, i);
      var failed := TranslateTarget(fs, root, p, s, src, p.targets[i]);
      if failed.Some? {
        RunTargetsStopped(t0, root, p, s, src, p.targets, i + 1);
        return failed;
      }
    }
    assert p.targets[..|p.targets|] == p.targets;
    error := None;
  }

  lemma RunTargetsSnoc(t: Tree<string>, root: Path, p: Plan, s: Service, src: Locale, targets: seq<Target>, i: nat)
    requires t.Valid() && Fits(t, p) && i < |targets|
    ensures var before := RunTargets(t, root, p, s, src, targets[..i]);
            RunTargets(t, root, p, s, src, targets[..i + 1])
            == if before.error.Some? then before else TargetStep(before.tree, root, p, s, src, targets[i])
  {
    assert targets[..i + 1][..i] == targets[..i];
  }

  /** Once a target has failed fatally, the later targets change nothing. */
  lemma {:induction false} RunTargetsStopped(t: Tree<string>, root: Path, p: Plan, s: Service, src: Locale,
                                             targets: seq<Target>, i: nat)
    requires t.Valid() && Fits(t, p)
    requires i <= |targets| && RunTargets(t, root, p, s, src, targets[..i]).error.Some?
    ensures RunTargets(t, root, p, s, src, targets) == RunTargets(t, root, p, s, src, targets[..i])
    decreases |targets|
  {
    if i < |targets| {
      var init := targets[..|targets| - 1];
      assert init[..i] == targets[..i];
      RunTargetsStopped(t, root, p, s, src, init, i);
    } else {
      assert targets[..i] == targets;
    }
  }

  /** When every output of a target exists, the target is skipped without a
      provider call. */
  lemma NothingMissingNoCall(t: Tree<string>, root: Path, p: Plan, s: Service, src: Locale, tg: Target)
    requires t.Valid() && Fits(t, p)
    requires forall f | f in p.sourceFiles :: t.Exists(Output(root, tg.code, p.sourceDir, f))
    ensures TargetStep(t, root, p, s, src, tg) == Run(t, None)
  {
  }

  /** A provider failure skips the target and leaves the tree as it was. */
  lemma ProviderFailureSkipsTarget(t: Tree<string>, root: Path, p: Plan, s: Service, src: Locale, tg: Target)
    requires t.Valid() && Fits(t, p)
    requires var m := Missing(t, root, tg.code, p.sourceDir, p.sourceFiles);
             TranslateBatch(s, Contents(t, m), PlainText, src, tg.locale).Failure?
    ensures TargetStep(t, root, p, s, src, tg) == Run(t, None)
  {
  }

  /** A target step never rewrites an existing file, and every file it creates
      is one of the target's missing outputs. */
  lemma StepNeverOverwrites(t: Tree<string>, root: Path, p: Plan, s: Service, src: Locale, tg: Target)
    requires t.Valid() && Fits(t, p)
    ensures var r := TargetStep(t, root, p, s, src, tg);
            && (forall q | q in t.files :: r.tree.files[q] == t.files[q])
            && (forall q | q in r.tree.files && q !in t.files :: q in TargetMissing(t, root, p, tg))
  {
    var m := Missing(t, root, tg.code, p.sourceDir, p.sourceFiles);
    var outs := Outputs(root, tg.code, p.sourceDir, m);
    assert outs == TargetMissing(t, root, p, tg);
    forall q | q in outs ensures q !in t.files {
      var i :| 0 <= i < |outs| && outs[i] == q;
      assert m[i] in m;
    }
    forall n | 0 <= n <= |outs| ensures forall q | q in outs[..n] :: q in outs {
    }
  }

  /** With one answer per missing file, the i-th answer is written to the
      output of the i-th missing file, and the run goes on. */
  lemma StepWritesAnswers(t: Tree<string>, root: Path, p: Plan, s: Service, src: Locale, tg: Target,
                          answers: seq<string>)
    requires t.Valid() && Fits(t, p) && Distinct(p.sourceFiles)
    requires var m := Missing(t, root, tg.code, p.sourceDir, p.sourceFiles);
             m != [] && TranslateBatch(s, Contents(t, m), PlainText, src, tg.locale) == Success(answers)
             && |answers| == |m|
    ensures var m := Missing(t, root, tg.code, p.sourceDir, p.sourceFiles);
            var r := TargetStep(t, root, p, s, src, tg);
            && r.error == None
            && forall i | 0 <= i < |m| :: Output(root, tg.code, p.sourceDir, m[i]) in r.tree.files
                                          && r.tree.files[Output(root, tg.code, p.sourceDir, m[i])] == answers[i]
  {
    var m := Missing(t, root, tg.code, p.sourceDir, p.sourceFiles);
    StepIsWriteAnswers(t, root, p, s, src, tg, answers);
    OutputsWritten(t, root, tg.code, p.sourceDir, m, answers, TargetStep(t, root, p, s, src, tg));
  }

  /** More answers than missing files: every missing output is written, then
      the run stops with an error. */
  lemma TooManyAnswersIsFatal(t: Tree<string>, root: Path, p: Plan, s: Service, src: Locale, tg: Target,
                              answers: seq<string>)
    requires t.Valid() && Fits(t, p) && Distinct(p.sourceFiles)
    requires var m := Missing(t, root, tg.code, p.sourceDir, p.sourceFiles);
             m != [] && TranslateBatch(s, Contents(t, m), PlainText, src, tg.locale) == Success(answers)
             && |answers| > |m|
    ensures var m := Missing(t, root, tg.code, p.sourceDir, p.sourceFiles);
            var r := TargetStep(t, root, p, s, src, tg);
            && r.error == Some(TooManyResults(tg.code))
            && forall i | 0 <= i < |m| :: Output(root, tg.code, p.sourceDir, m[i]) in r.tree.files
                                          && r.tree.files[Output(root, tg.code, p.sourceDir, m[i])] == answers[i]
  {
    var m := Missing(t, root, tg.code, p.sourceDir, p.sourceFiles);
    StepIsWriteAnswers(t, root, p, s, src, tg, answers);
    OutputsWritten(t, root, tg.code, p.sourceDir, m, answers, TargetStep(t, root, p, s, src, tg));
  }

  /** A target with missing files and a successful batch writes the answers
      to the missing outputs. */
  lemma StepIsWriteAnswers(t: Tree<string>, root: Path, p: Plan, s: Service, src: Locale, tg: Target,
                           answers: seq<string>)
    requires t.Valid() && Fits(t, p)
    requires var m := Missing(t, root, tg.code, p.sourceDir, p.sourceFiles);
             m != [] && TranslateBatch(s, Contents(t, m), PlainText, src, tg.locale) == Success(answers)
    ensures TargetStep(t, root, p, s, src, tg)
         == WriteAnswers(t, Outputs(root, tg.code, p.sourceDir, Missing(t, root, tg.code, p.sourceDir, p.sourceFiles)),
                         answers, tg.code)
  {
  }

  /** The outputs of the files `m`, written in order. */
  lemma OutputsWritten(t: Tree<string>, root: Path, code: string, dir: Path, m: seq<Path>, answers: seq<string>, r: Run)
    requires t.Valid() && Distinct(m) && forall f | f in m :: Under(f, dir)
    requires |answers| >= |m| && r == WriteAnswers(t, Outputs(root, code, dir, m), answers, code)
    ensures r.error == (if |answers| > |m| then Some(TooManyResults(code)) else None)
    ensures forall i | 0 <= i < |m| :: Output(root, code, dir, m[i]) in r.tree.files
                                      && r.tree.files[Output(root, code, dir, m[i])] == answers[i]
  {
    var outs := Outputs(root, code, dir, m);
    WriteAnswersAt(t, outs, answers, code);
  }

  /** At least one answer per output: the i-th answer is in the i-th output. */
  lemma WriteAnswersAt(t: Tree<string>, outs: seq<Path>, translated: seq<string>, code: string)
    requires t.Valid() && Distinct(outs) && |translated| >= |outs|
    ensures var r := WriteAnswers(t, outs, translated, code);
            && r.error == (if |translated| > |outs| then Some(TooManyResults(code)) else None)
            && forall i | 0 <= i < |outs| :: outs[i] in r.tree.files && r.tree.files[outs[i]] == translated[i]
  {
    var n := |outs|;
    assert outs[..n] == outs;
    forall i | 0 <= i < n ensures translated[..n][i] == translated[i] {
    }
  }

  /** Exactly one answer per output: all are written and the run goes on. */
  lemma WriteAnswersFull(t: Tree<string>, outs: seq<Path>, translated: seq<string>, code: string)
    requires t.Valid() && |outs| == |translated|
    ensures WriteAnswers(t, outs, translated, code) == Run(WriteAll(t, outs, translated), None)
  {
    assert outs[..|outs|] == outs && translated[..|translated|] == translated;
  }

  /** The whole run never rewrites a file that existed before it. */
  lemma {:induction false} RunTargetsKeepsFiles(t: Tree<string>, root: Path, p: Plan, s: Service, src: Locale,
                                                targets: seq<Target>)
    requires t.Valid() && Fits(t, p)
    ensures forall q | q in t.files :: RunTargets(t, root, p, s, src, targets).tree.files[q] == t.files[q]
    decreases |targets|
  {
    if targets != [] {
      var init := targets[..|targets| - 1];
      RunTargetsKeepsFiles(t, root, p, s, src, init);
      var before := RunTargets(t, root, p, s, src, init);
      if before.error.None? {
        StepNeverOverwrites(before.tree, root, p, s, src, targets[|targets| - 1]);
      }
    }
  }

  /** `translate` leaves every existing file as it was. */
  lemma TranslationKeepsFiles(t: Tree<string>, root: Path, s: Service, src: Locale, languages: seq<string>,
                              exclude: seq<string>, catalog: seq<Locale>)
    requires t.Valid()
    ensures forall q | q in t.files ::
              Translation(t, root, s, src, languages, exclude, catalog).tree.files[q] == t.files[q]
  {
    if t.Exists(root) {
      var plan := MakePlan(t, root, src, languages, exclude, catalog);
      if plan.Some? {
        RunTargetsKeepsFiles(t, root, plan.value, s, src, plan.value.targets);
      }
    }
  }

  /** Nothing to resolve means nothing to do: the targets make no change. */
  lemma {:induction false} RunTargetsIdle(t: Tree<string>, root: Path, p: Plan, s: Service, src: Locale,
                                          targets: seq<Target>)
    requires t.Valid() && Fits(t, p)
    requires AllMissing(t, root, p, targets) == []
    ensures RunTargets(t, root, p, s, src, targets) == Run(t, None)
    decreases |targets|
  {
    if targets != [] {
      var tg := targets[|targets| - 1];
      RunTargetsIdle(t, root, p, s, src, targets[..|targets| - 1]);
      assert TargetMissing(t, root, p, tg) == [];
      assert Missing(t, root, tg.code, p.sourceDir, p.sourceFiles) == [] by {
        var m := Missing(t, root, tg.code, p.sourceDir, p.sourceFiles);
        assert |Outputs(root, tg.code, p.sourceDir, m)| == |m|;
      }
    }
  }

  /** When `resolveTargets` reports nothing on an existing root, `translate`
      changes nothing and reports no error. */
  lemma NothingResolvedNothingWritten(t: Tree<string>, root: Path, s: Service, src: Locale, languages: seq<string>,
                                      exclude: seq<string>, catalog: seq<Locale>)
    requires t.Valid() && t.Exists(root)
    requires ResolvedOutputs(t, root, src, languages, exclude, catalog) == []
    ensures Translation(t, root, s, src, languages, exclude, catalog) == Run(t, None)
  {
    var plan := MakePlan(t, root, src, languages, exclude, catalog);
    if plan.Some? {
      RunTargetsIdle(t, root, plan.value, s, src, plan.value.targets);
    }
  }

  /** A provider that answers every batch with one text per text. */
  ghost predicate AnswersAll(s: Service) {
    forall c: BatchCall :: s.backend(c).Success? && |s.backend(c).value| == |c.texts|
  }

  /** Every path in the missing outputs of `targets` lies in the folder of one
      of them. */
  lemma {:induction false} AllMissingCodes(t: Tree<string>, root: Path, p: Plan, targets: seq<Target>, q: Path)
    requires forall f | f in p.sourceFiles :: Under(f, p.sourceDir)
    requires q in AllMissing(t, root, p, targets)
    ensures exists k | 0 <= k < |targets| :: targets[k].code == q[|root|]
    decreases |targets|
  {
    var n := |targets| - 1;
    if q in AllMissing(t, root, p, targets[..n]) {
      AllMissingCodes(t, root, p, targets[..n], q);
      var k :| 0 <= k < n && targets[..n][k].code == q[|root|];
      assert targets[k].code == q[|root|];
    } else {
      assert targets[n].code == q[|root|];
    }
  }

  /** Which outputs are missing depends only on whether those outputs exist. */
  lemma {:induction false} MissingSame(t1: Tree<string>, t2: Tree<string>, root: Path, code: string, dir: Path,
                                       files: seq<Path>)
    requires forall f | f in files :: Under(f, dir)
    requires forall f | f in files :: t1.Exists(Output(root, code, dir, f)) == t2.Exists(Output(root, code, dir, f))
    ensures Missing(t1, root, code, dir, files) == Missing(t2, root, code, dir, files)
  {
    if files != [] {
      MissingSame(t1, t2, root, code, dir, files[1..]);
    }
  }

  /** With a provider that answers every batch in full and targets with
      different codes, the run creates exactly the missing outputs of its
      targets and nothing else, and stops on no error. */
  lemma {:induction false} RunTargetsCreates(t: Tree<string>, root: Path, p: Plan, s: Service, src: Locale,
                                             targets: seq<Target>)
    requires t.Valid() && Fits(t, p) && Distinct(p.sourceFiles)
    requires DistinctCodes(targets) && AnswersAll(s)
    ensures var r := RunTargets(t, root, p, s, src, targets);
            && r.error == None
            && forall q :: q in r.tree.files <==> q in t.files || q in AllMissing(t, root, p, targets)
    decreases |targets|
  {
    if targets != [] {
      var n := |targets| - 1;
      var init := targets[..n];
      var tg := targets[n];
      RunTargetsCreates(t, root, p, s, src, init);
      var before := RunTargets(t, root, p, s, src, init);
      assert forall k | 0 <= k < |init| :: init[k].code != tg.code;
      EarlierTargetsKeepMissing(t, before.tree, root, p, init, tg);
      StepCreates(before.tree, t, root, p, s, src, tg);
    }
  }

  /** Writing the missing files of other targets does not change which files
      of `tg` are missing. */
  lemma EarlierTargetsKeepMissing(t: Tree<string>, before: Tree<string>, root: Path, p: Plan,
                                  init: seq<Target>, tg: Target)
    requires Fits(t, p) && forall k | 0 <= k < |init| :: init[k].code != tg.code
    requires before.dirs == t.dirs
    requires forall q :: q in before.files <==> q in t.files || q in AllMissing(t, root, p, init)
    ensures Missing(before, root, tg.code, p.sourceDir, p.sourceFiles) == Missing(t, root, tg.code, p.sourceDir, p.sourceFiles)
  {
    forall f | f in p.sourceFiles
      ensures before.Exists(Output(root, tg.code, p.sourceDir, f)) == t.Exists(Output(root, tg.code, p.sourceDir, f))
    {
      var q := Output(root, tg.code, p.sourceDir, f);
      if q in AllMissing(t, root, p, init) {
        AllMissingCodes(t, root, p, init, q);
      }
    }
    MissingSame(before, t, root, tg.code, p.sourceDir, p.sourceFiles);
  }

  /** One step of the above, on a tree whose missing outputs for `tg` are those
      of the original tree `t`. */
  lemma StepCreates(before: Tree<string>, t: Tree<string>, root: Path, p: Plan, s: Service, src: Locale, tg: Target)
    requires before.Valid() && Fits(before, p) && Distinct(p.sourceFiles) && AnswersAll(s)
    requires Missing(before, root, tg.code, p.sourceDir, p.sourceFiles) == Missing(t, root, tg.code, p.sourceDir, p.sourceFiles)
    ensures var r := TargetStep(before, root, p, s, src, tg);
            && r.error == None
            && forall q :: q in r.tree.files <==> q in before.files || q in TargetMissing(t, root, p, tg)
  {
    var m := Missing(t, root, tg.code, p.sourceDir, p.sourceFiles);
    var outs := Outputs(root, tg.code, p.sourceDir, m);
    assert outs == TargetMissing(t, root, p, tg);
    if m != [] {
      var answer := TranslateBatch(s, Contents(before, m), PlainText, src, tg.locale);
      assert answer.Success? && |answer.value| == |m|;
      StepFullAnswer(before, root, p, s, src, tg, answer.value);
    }
  }

  /** A full answer is written to the missing outputs and nothing else. */
  lemma StepFullAnswer(t: Tree<string>, root: Path, p: Plan, s: Service, src: Locale, tg: Target, answers: seq<string>)
    requires t.Valid() && Fits(t, p)
    requires var m := Missing(t, root, tg.code, p.sourceDir, p.sourceFiles);
             m != [] && TranslateBatch(s, Contents(t, m), PlainText, src, tg.locale) == Success(answers)
             && |answers| == |m|
    ensures TargetStep(t, root, p, s, src, tg)
            == Run(WriteAll(t, Outputs(root, tg.code, p.sourceDir, Missing(t, root, tg.code, p.sourceDir, p.sourceFiles)), answers), None)
  {
    var m := Missing(t, root, tg.code, p.sourceDir, p.sourceFiles);
    StepIsWriteAnswers(t, root, p, s, src, tg, answers);
    WriteAnswersFull(t, Outputs(root, tg.code, p.sourceDir, m), answers, tg.code);
  }

  /** `resolveTargets` names exactly the files `translate` creates, when the
      provider answers every batch in full: with an existing root the run
      ends without error and its new files are the resolved ones; without a
      root both report nothing. */
  lemma ResolvedAreCreated(t: Tree<string>, root: Path, s: Service, src: Locale, languages: seq<string>,
                           exclude: seq<string>, catalog: seq<Locale>)
    requires t.Valid() && AnswersAll(s) && Distinct(languages)
    ensures var r := Translation(t, root, s, src, languages, exclude, catalog);
            && (r.error == None <==> t.Exists(root))
            && forall q :: q in r.tree.files && q !in t.files <==> q in ResolvedOutputs(t, root, src, languages, exclude, catalog)
  {
    if t.Exists(root) {
      var plan := MakePlan(t, root, src, languages, exclude, catalog);
      if plan.Some? {
        RunTargetsCreates(t, root, plan.value, s, src, plan.value.targets);
      }
    }
  }

  /** With the test stub as provider, every missing output receives its
      source file's text followed by the target's upper-cased ISO code in
      brackets. */
  lemma StubFillsMissing(isoCode: Locale -> string, t: Tree<string>, root: Path, p: Plan, src: Locale, tg: Target)
    requires t.Valid() && Fits(t, p) && Distinct(p.sourceFiles)
    ensures var m := Missing(t, root, tg.code, p.sourceDir, p.sourceFiles);
            var r := TargetStep(t, root, p, TestService.NewService(isoCode), src, tg);
            && r.error == None
            && forall f | f in m ::
                 Output(root, tg.code, p.sourceDir, f) in r.tree.files
                 && r.tree.files[Output(root, tg.code, p.sourceDir, f)] == t.files[f] + TestService.Marker(isoCode(tg.locale))
  {
    var m := Missing(t, root, tg.code, p.sourceDir, p.sourceFiles);
    var s := TestService.NewService(isoCode);
    if m != [] {
      var texts := Contents(t, m);
      var answers := TestService.Tagged(texts, isoCode(tg.locale));
      TestService.StubTranslateBatch(isoCode, texts, PlainText, src, tg.locale, src);
      StepWritesAnswers(t, root, p, s, src, tg, answers);
      var r := TargetStep(t, root, p, s, src, tg);
      forall f | f in m
        ensures Output(root, tg.code, p.sourceDir, f) in r.tree.files
        ensures r.tree.files[Output(root, tg.code, p.sourceDir, f)] == t.files[f] + TestService.Marker(isoCode(tg.locale))
      {
        var i :| 0 <= i < |m| && m[i] == f;
        assert answers[i] == texts[i] + TestService.Marker(isoCode(tg.locale)) && texts[i] == t.files[f];
      }
    }
  }

  /** The Fastlane test's expectation: in the `de-DE` folder (ISO code
      `de_DE`), a missing `title.txt` whose source reads `Hello App` is
      written as `Hello App [DE_DE]`. */
  lemma HelloAppWritten(isoCode: Locale -> string, t: Tree<string>, root: Path, p: Plan, src: Locale, tg: Target, f: Path)
    requires t.Valid() && Fits(t, p) && Distinct(p.sourceFiles)
    requires isoCode(tg.locale) == "de_DE"
    requires f in p.sourceFiles && t.files[f] == "Hello App"
    requires !t.Exists(Output(root, tg.code, p.sourceDir, f))
    ensures TargetStep(t, root, p, TestService.NewService(isoCode), src, tg).tree.files[Output(root, tg.code, p.sourceDir, f)]
            == "Hello App [DE_DE]"
  {
    StubFillsMissing(isoCode, t, root, p, src, tg);
    assert f in Missing(t, root, tg.code, p.sourceDir, p.sourceFiles);
    HelloAppTagged();
  }

  lemma HelloAppTagged()
    ensures "Hello App" + TestService.Marker("de_DE") == "Hello App [DE_DE]"
  {
    assert Upper("de_DE") == "DE_DE";
    assert TestService.Marker("de_DE") == " [DE_DE]";
    assert "Hello App" + " [DE_DE]" == "Hello App [DE_DE]";
  }
}
