/** The older `FastlaneTranslator` of the `android` package. It locates the
    source folder and the targets exactly as the newer one does, but it sends
    every source file for every target and writes all the answers, replacing
    whatever was there. */
module LegacyFastlane {
  import opened Wrappers
  import opened Ordering
  import opened FileTrees
  import opened Locales
  import opened LegacyServices
  import Fastlane

  /** The plan's folder structure: the source folder is a child of `root`,
      no target shares its name, and the source files lie under it. */
  predicate Layout(root: Path, p: Fastlane.Plan) {
    && |p.sourceDir| == |root| + 1 && p.sourceDir[..|root|] == root
    && (forall tg | tg in p.targets :: tg.code != p.sourceDir[|root|])
    && Distinct(p.sourceFiles)
  }

  /** One target: all source texts in one batch, the i-th answer written to
      the output of the i-th source file. A provider failure skips the target;
      an answer beyond the source files is fatal after the others are written. */
  function Step(t: Tree<string>, root: Path, p: Fastlane.Plan, s: LegacyService, src: Locale,
                tg: Fastlane.Target): (r: Fastlane.Run)
    requires t.Valid() && Fastlane.Fits(t, p)
    ensures r.tree.Valid() && r.tree.dirs == t.dirs && Fastlane.Fits(r.tree, p)
    ensures forall q | q in t.files :: q in r.tree.files
  {
    match TranslateBatch(s, Fastlane.Contents(t, p.sourceFiles), src, tg.locale)
    case Failure(_) => Fastlane.Run(t, None)
    case Success(translated) =>
      Fastlane.WriteAnswers(t, Fastlane.Outputs(root, tg.code, p.sourceDir, p.sourceFiles), translated, tg.code)
  }

  /** `targets.forEach { ... }`, stopped by the first fatal error. */
  function RunTargets(t: Tree<string>, root: Path, p: Fastlane.Plan, s: LegacyService, src: Locale,
                      targets: seq<Fastlane.Target>): (r: Fastlane.Run)
    requires t.Valid() && Fastlane.Fits(t, p)
    ensures r.tree.Valid() && r.tree.dirs == t.dirs && Fastlane.Fits(r.tree, p)
    ensures forall q | q in t.files :: q in r.tree.files
  {
    if targets == [] then Fastlane.Run(t, None)
    else
      var before := RunTargets(t, root, p, s, src, targets[..|targets| - 1]);
      if before.error.Some? then before
      else Step(before.tree, root, p, s, src, targets[|targets| - 1])
  }

  /** `translate(metadataRoot, service, srcLang, targetLanguages, excludeLanguages)`:
      a missing root is fatal; no folder, no source folder or no `.txt` file
      is a no-op. */
  function Translation(t: Tree<string>, root: Path, s: LegacyService, src: Locale, languages: seq<string>,
                       exclude: seq<string>, catalog: seq<Locale>): (r: Fastlane.Run)
    requires t.Valid()
    ensures r.tree.Valid() && r.tree.dirs == t.dirs
    ensures !t.Exists(root) ==> r == Fastlane.Run(t, Some(Fastlane.MissingRoot(root)))
    ensures t.Exists(root) && Fastlane.MakePlan(t, root, src, languages, exclude, catalog).None?
            ==> r == Fastlane.Run(t, None)
  {
    if !t.Exists(root) then Fastlane.Run(t, Some(Fastlane.MissingRoot(root)))
    else
      match Fastlane.MakePlan(t, root, src, languages, exclude, catalog)
      case None => Fastlane.Run(t, None)
      case Some(p) => RunTargets(t, root, p, s, src, p.targets)
  }

  /** One target on the file system. */
  method TranslateTarget(fs: FileSystem<string>, root: Path, p: Fastlane.Plan, s: LegacyService, src: Locale,
                         tg: Fastlane.Target) returns (error: Option<Fastlane.FastlaneError>)
    requires fs.State().Valid() && Fastlane.Fits(fs.State(), p)
    modifies fs
    ensures Fastlane.Run(fs.State(), error) == Step(old(fs.State()), root, p, s, src, tg)
  {
    var contents := Fastlane.Contents(fs.State(), p.sourceFiles);
    var answer := TranslateBatch(s, contents, src, tg.locale);
    if answer.Failure? {
      return None;
    }
    var outs := Fastlane.Outputs(root, tg.code, p.sourceDir, p.sourceFiles);
    var overflow := Fastlane.WriteTranslated(fs, outs, answer.value);
    error := if overflow then Some(Fastlane.TooManyResults(tg.code)) else None;
  }

  /** The loop of `translate`: each target in turn, until a fatal error. */
  method TranslateTargets(fs: FileSystem<string>, root: Path, p: Fastlane.Plan, s: LegacyService, src: Locale)
    returns (error: Option<Fastlane.FastlaneError>)
    requires fs.State().Valid() && Fastlane.Fits(fs.State(), p)
    modifies fs
    ensures Fastlane.Run(fs.State(), error) == RunTargets(old(fs.State()), root, p, s, src, p.targets)
  {
    ghost var t0 := fs.State();
    for i := 0 to |p.targets|
      invariant fs.State().Valid() && Fastlane.Fits(fs.State(), p)
      invariant RunTargets(t0, root, p, s, src, p.targets[..i]) == Fastlane.Run(fs.State(), None)
    {
      RunTargetsSnoc(t0, root, p, s, src, p.targets, i);
      var failed := TranslateTarget(fs, root, p, s, src, p.targets[i]);
      if failed.Some? {
        RunTargetsStopped(t0, root, p, s, src, p.targets, i + 1);
        return failed;
      }
    }
    assert p.targets[..|p.targets|] == p.targets;
    error := None;
  }

  /** `translate` on the file system. */
  method Translate(fs: FileSystem<string>, root: Path, s: LegacyService, src: Locale, languages: seq<string>,
                   exclude: seq<string>, catalog: seq<Locale>) returns (error: Option<Fastlane.FastlaneError>)
    requires fs.State().Valid()
    modifies fs
    ensures Fastlane.Run(fs.State(), error) == Translation(old(fs.State()), root, s, src, languages, exclude, catalog)
  {
    if !(root in fs.dirs || root in fs.files) {
      return Some(Fastlane.MissingRoot(root));
    }
    var plan := Fastlane.MakePlan(fs.State(), root, src, languages, exclude, catalog);
    if plan.None? {
      return None;
    }
    error := TranslateTargets(fs, root, plan.value, s, src);
  }

  lemma RunTargetsSnoc(t: Tree<string>, root: Path, p: Fastlane.Plan, s: LegacyService, src: Locale,
                       targets: seq<Fastlane.Target>, i: nat)
    requires t.Valid() && Fastlane.Fits(t, p) && i < |targets|
    ensures var before := RunTargets(t, root, p, s, src, targets[..i]);
            RunTargets(t, root, p, s, src, targets[..i + 1])
            == if before.error.Some? then before else Step(before.tree, root, p, s, src, targets[i])
  {
    assert targets[..i + 1][..i] == targets[..i];
  }

  /** Once a target has failed fatally, the later targets change nothing. */
  lemma {:induction false} RunTargetsStopped(t: Tree<string>, root: Path, p: Fastlane.Plan, s: LegacyService,
                                             src: Locale, targets: seq<Fastlane.Target>, i: nat)
    requires t.Valid() && Fastlane.Fits(t, p)
    requires i <= |targets| && RunTargets(t, root, p, s, src, targets[..i]).error.Some?
    ensures RunTargets(t, root, p, s, src, targets) == RunTargets(t, root, p, s, src, targets[..i])
    decreases |targets|
  {
    if i < |targets| {
      var init := targets[..|targets| - 1];
      assert init[..i] == targets[..i];
      RunTargetsStopped(t, root, p, s, src, init, i);
    } else {
      assert targets[..i] == targets;
    }
  }

  /** A provider failure skips the target and leaves the tree as it was. */
  lemma ProviderFailureSkipsTarget(t: Tree<string>, root: Path, p: Fastlane.Plan, s: LegacyService, src: Locale,
                                   tg: Fastlane.Target)
    requires t.Valid() && Fastlane.Fits(t, p)
    requires TranslateBatch(s, Fastlane.Contents(t, p.sourceFiles), src, tg.locale).Failure?
    ensures Step(t, root, p, s, src, tg) == Fastlane.Run(t, None)
  {
  }

  /** With one answer per source file, the i-th answer replaces the output of
      the i-th source file whether or not it existed; every other file keeps
      its content. */
  lemma StepOverwrites(t: Tree<string>, root: Path, p: Fastlane.Plan, s: LegacyService, src: Locale,
                       tg: Fastlane.Target, answers: seq<string>)
    requires t.Valid() && Fastlane.Fits(t, p) && Distinct(p.sourceFiles)
    requires TranslateBatch(s, Fastlane.Contents(t, p.sourceFiles), src, tg.locale) == Success(answers)
    requires |answers| == |p.sourceFiles|
    ensures var r := Step(t, root, p, s, src, tg);
            var outs := Fastlane.Outputs(root, tg.code, p.sourceDir, p.sourceFiles);
            && r.error == None
            && (forall i | 0 <= i < |outs| :: outs[i] in r.tree.files && r.tree.files[outs[i]] == answers[i])
            && (forall q | q in t.files && q !in outs :: r.tree.files[q] == t.files[q])
  {
    var outs := Fastlane.Outputs(root, tg.code, p.sourceDir, p.sourceFiles);
    assert Step(t, root, p, s, src, tg) == Fastlane.WriteAnswers(t, outs, answers, tg.code);
    Fastlane.WriteAnswersFull(t, outs, answers, tg.code);
    Fastlane.WriteAnswersAt(t, outs, answers, tg.code);
  }

  /** The outputs of a target lie in the target's folder, so no step writes
      into the source folder or into another target's folder. */
  lemma OutputsOutside(root: Path, p: Fastlane.Plan, code: string, q: Path)
    requires forall f | f in p.sourceFiles :: Fastlane.Under(f, p.sourceDir)
    requires q in Fastlane.Outputs(root, code, p.sourceDir, p.sourceFiles)
    ensures |q| > |root| && q[..|root|] == root && q[|root|] == code
  {
    var outs := Fastlane.Outputs(root, code, p.sourceDir, p.sourceFiles);
    var i :| 0 <= i < |outs| && outs[i] == q;
  }

  /** A step leaves every file outside the target's folder as it was; in
      particular the source files. */
  lemma StepFrame(t: Tree<string>, root: Path, p: Fastlane.Plan, s: LegacyService, src: Locale,
                  tg: Fastlane.Target)
    requires t.Valid() && Fastlane.Fits(t, p)
    ensures var r := Step(t, root, p, s, src, tg);
            forall q | q in t.files && !(|q| > |root| && q[..|root|] == root && q[|root|] == tg.code) ::
              r.tree.files[q] == t.files[q]
  {
    var outs := Fastlane.Outputs(root, tg.code, p.sourceDir, p.sourceFiles);
    forall q | q in outs ensures |q| > |root| && q[..|root|] == root && q[|root|] == tg.code {
      OutputsOutside(root, p, tg.code, q);
    }
    forall n | 0 <= n <= |outs| ensures forall q | q in outs[..n] :: q in outs {
    }
  }

  /** A provider that answers every batch with one text per text. */
  ghost predicate AnswersAll(s: LegacyService) {
    forall texts, a, b :: s.backend(texts, a, b).Success? && |s.backend(texts, a, b).value| == |texts|
  }

  /** The source file `f` lies in the source folder, not in any target's. */
  lemma SourceOutsideTargets(root: Path, p: Fastlane.Plan, f: Path, code: string)
    requires Layout(root, p) && Fastlane.Under(f, p.sourceDir) && code != p.sourceDir[|root|]
    ensures !(|f| > |root| && f[..|root|] == root && f[|root|] == code)
  {
    assert f[|root|] == f[..|p.sourceDir|][|root|];
  }

  /** The contents of files that did not change are the same. */
  lemma ContentsSame(t1: Tree<string>, t2: Tree<string>, files: seq<Path>)
    requires forall f | f in files :: f in t1.files && f in t2.files && t1.files[f] == t2.files[f]
    ensures Fastlane.Contents(t1, files) == Fastlane.Contents(t2, files)
  {
  }

  /** The answer to the batch of all source texts of `t0` for target `tg`. */
  ghost function Expected(t0: Tree<string>, p: Fastlane.Plan, s: LegacyService, src: Locale, tg: Fastlane.Target): (r: seq<string>)
    requires Fastlane.Fits(t0, p) && AnswersAll(s)
    ensures |r| == |p.sourceFiles|
  {
    var texts := Fastlane.Contents(t0, p.sourceFiles);
    assert s.backend(texts, s.apiString(src), s.apiString(tg.locale)).Success?;
    TranslateBatch(s, texts, src, tg.locale).value
  }

  /** After `targets`, the source files are as in `t0` and the output of the
      i-th source file for each target holds the i-th expected answer. */
  ghost predicate Translated(t0: Tree<string>, r: Tree<string>, root: Path, p: Fastlane.Plan, s: LegacyService,
                             src: Locale, targets: seq<Fastlane.Target>)
    requires Fastlane.Fits(t0, p) && AnswersAll(s)
  {
    && SourcesKept(t0, r, p)
    && forall k | 0 <= k < |targets| :: Filled(t0, r, root, p, s, src, targets[k])
  }

  /** The source files hold what they held in `t0`. */
  predicate SourcesKept(t0: Tree<string>, r: Tree<string>, p: Fastlane.Plan)
    requires Fastlane.Fits(t0, p)
  {
    forall f | f in p.sourceFiles :: f in r.files && r.files[f] == t0.files[f]
  }

  /** The output of the i-th source file for `tg` holds the i-th expected answer. */
  ghost predicate Filled(t0: Tree<string>, r: Tree<string>, root: Path, p: Fastlane.Plan, s: LegacyService,
                         src: Locale, tg: Fastlane.Target)
    requires Fastlane.Fits(t0, p) && AnswersAll(s)
  {
    forall i | 0 <= i < |p.sourceFiles| ::
      Fastlane.Output(root, tg.code, p.sourceDir, p.sourceFiles[i]) in r.files
      && r.files[Fastlane.Output(root, tg.code, p.sourceDir, p.sourceFiles[i])] == Expected(t0, p, s, src, tg)[i]
  }

  /** One more target keeps what the earlier ones wrote and the source files,
      and fills its own folder. */
  lemma StepTranslates(t0: Tree<string>, before: Tree<string>, root: Path, p: Fastlane.Plan, s: LegacyService,
                       src: Locale, init: seq<Fastlane.Target>, tg: Fastlane.Target)
    requires before.Valid() && Fastlane.Fits(before, p) && Fastlane.Fits(t0, p) && Layout(root, p) && AnswersAll(s)
    requires tg in p.targets && forall x | x in init :: x.code != tg.code
    requires Translated(t0, before, root, p, s, src, init)
    ensures Step(before, root, p, s, src, tg).error == None
    ensures Translated(t0, Step(before, root, p, s, src, tg).tree, root, p, s, src, init + [tg])
  {
    StepSources(t0, before, root, p, s, src, init, tg);
    StepEarlier(t0, before, root, p, s, src, init, tg);
    StepOwn(t0, before, root, p, s, src, init, tg);
    TranslatedSnoc(t0, Step(before, root, p, s, src, tg).tree, root, p, s, src, init, tg);
  }

  lemma StepSources(t0: Tree<string>, before: Tree<string>, root: Path, p: Fastlane.Plan, s: LegacyService,
                    src: Locale, init: seq<Fastlane.Target>, tg: Fastlane.Target)
    requires before.Valid() && Fastlane.Fits(before, p) && Fastlane.Fits(t0, p) && Layout(root, p) && AnswersAll(s)
    requires tg in p.targets
    requires Translated(t0, before, root, p, s, src, init)
    ensures Step(before, root, p, s, src, tg).error == None
    ensures var r := Step(before, root, p, s, src, tg).tree;
            forall f | f in p.sourceFiles :: f in r.files && r.files[f] == t0.files[f]
  {
    ContentsSame(before, t0, p.sourceFiles);
    StepOverwrites(before, root, p, s, src, tg, Expected(t0, p, s, src, tg));
    StepFrame(before, root, p, s, src, tg);
    StepKeepsSources(t0, before, Step(before, root, p, s, src, tg).tree, root, p, s, src, tg);
  }

  lemma StepEarlier(t0: Tree<string>, before: Tree<string>, root: Path, p: Fastlane.Plan, s: LegacyService,
                    src: Locale, init: seq<Fastlane.Target>, tg: Fastlane.Target)
    requires before.Valid() && Fastlane.Fits(before, p) && Fastlane.Fits(t0, p) && Layout(root, p) && AnswersAll(s)
    requires forall x | x in init :: x.code != tg.code
    requires Translated(t0, before, root, p, s, src, init)
    ensures forall k | 0 <= k < |init| :: Filled(t0, Step(before, root, p, s, src, tg).tree, root, p, s, src, init[k])
  {
    StepFrame(before, root, p, s, src, tg);
    StepKeepsEarlier(t0, before, Step(before, root, p, s, src, tg).tree, root, p, s, src, init, tg);
  }

  lemma StepOwn(t0: Tree<string>, before: Tree<string>, root: Path, p: Fastlane.Plan, s: LegacyService,
                src: Locale, init: seq<Fastlane.Target>, tg: Fastlane.Target)
    requires before.Valid() && Fastlane.Fits(before, p) && Fastlane.Fits(t0, p) && Layout(root, p) && AnswersAll(s)
    requires Translated(t0, before, root, p, s, src, init)
    ensures Filled(t0, Step(before, root, p, s, src, tg).tree, root, p, s, src, tg)
  {
    ContentsSame(before, t0, p.sourceFiles);
    StepOverwrites(before, root, p, s, src, tg, Expected(t0, p, s, src, tg));
    var outs := Fastlane.Outputs(root, tg.code, p.sourceDir, p.sourceFiles);
    StepFillsOwn(t0, Step(before, root, p, s, src, tg).tree, root, p, s, src, tg, outs);
  }

  lemma TranslatedSnoc(t0: Tree<string>, r: Tree<string>, root: Path, p: Fastlane.Plan, s: LegacyService,
                       src: Locale, init: seq<Fastlane.Target>, tg: Fastlane.Target)
    requires Fastlane.Fits(t0, p) && AnswersAll(s)
    requires SourcesKept(t0, r, p)
    requires forall k | 0 <= k < |init| :: Filled(t0, r, root, p, s, src, init[k])
    requires Filled(t0, r, root, p, s, src, tg)
    ensures Translated(t0, r, root, p, s, src, init + [tg])
  {
    var all := init + [tg];
    forall k | 0 <= k < |all| ensures Filled(t0, r, root, p, s, src, all[k]) {
      if k < |init| {
        assert all[k] == init[k];
      } else {
        assert all[k] == tg;
      }
    }
  }

  lemma StepKeepsSources(t0: Tree<string>, before: Tree<string>, r: Tree<string>, root: Path, p: Fastlane.Plan,
                         s: LegacyService, src: Locale, tg: Fastlane.Target)
    requires before.Valid() && Fastlane.Fits(before, p) && Fastlane.Fits(t0, p) && Layout(root, p) && AnswersAll(s)
    requires tg in p.targets
    requires forall f | f in p.sourceFiles :: f in before.files && before.files[f] == t0.files[f]
    requires forall q | q in before.files :: q in r.files
    requires forall q | q in before.files && !(|q| > |root| && q[..|root|] == root && q[|root|] == tg.code) ::
               r.files[q] == before.files[q]
    ensures forall f | f in p.sourceFiles :: f in r.files && r.files[f] == t0.files[f]
  {
    forall f | f in p.sourceFiles ensures r.files[f] == t0.files[f] {
      SourceOutsideTargets(root, p, f, tg.code);
    }
  }

  lemma StepKeepsEarlier(t0: Tree<string>, before: Tree<string>, r: Tree<string>, root: Path, p: Fastlane.Plan,
                         s: LegacyService, src: Locale, init: seq<Fastlane.Target>, tg: Fastlane.Target)
    requires Fastlane.Fits(t0, p) && AnswersAll(s)
    requires forall f | f in p.sourceFiles :: Fastlane.Under(f, p.sourceDir)
    requires forall x | x in init :: x.code != tg.code
    requires Translated(t0, before, root, p, s, src, init)
    requires forall q | q in before.files :: q in r.files
    requires forall q | q in before.files && !(|q| > |root| && q[..|root|] == root && q[|root|] == tg.code) ::
               r.files[q] == before.files[q]
    ensures forall k | 0 <= k < |init| :: Filled(t0, r, root, p, s, src, init[k])
  {
    forall k | 0 <= k < |init| ensures Filled(t0, r, root, p, s, src, init[k]) {
      assert init[k] in init;
      assert Filled(t0, before, root, p, s, src, init[k]);
    }
  }

  lemma StepFillsOwn(t0: Tree<string>, r: Tree<string>, root: Path, p: Fastlane.Plan,
                     s: LegacyService, src: Locale, tg: Fastlane.Target, outs: seq<Path>)
    requires Fastlane.Fits(t0, p) && AnswersAll(s)
    requires forall f | f in p.sourceFiles :: Fastlane.Under(f, p.sourceDir)
    requires outs == Fastlane.Outputs(root, tg.code, p.sourceDir, p.sourceFiles)
    requires forall i | 0 <= i < |outs| :: outs[i] in r.files && r.files[outs[i]] == Expected(t0, p, s, src, tg)[i]
    ensures Filled(t0, r, root, p, s, src, tg)
  {
    forall i | 0 <= i < |p.sourceFiles|
      ensures Fastlane.Output(root, tg.code, p.sourceDir, p.sourceFiles[i]) in r.files
      ensures r.files[Fastlane.Output(root, tg.code, p.sourceDir, p.sourceFiles[i])] == Expected(t0, p, s, src, tg)[i]
    {
      assert outs[i] == Fastlane.Output(root, tg.code, p.sourceDir, p.sourceFiles[i]);
    }
  }

  /** With a provider that answers every batch in full and targets with
      different codes, the run ends without error and the output of the i-th
      source file in each target's folder holds the i-th answer to the batch
      of all original source texts for that target, whatever it held before. */
  lemma {:induction false} RunTargetsTranslatesAll(t: Tree<string>, root: Path, p: Fastlane.Plan, s: LegacyService,
                                                   src: Locale, targets: seq<Fastlane.Target>)
    requires t.Valid() && Fastlane.Fits(t, p) && Layout(root, p) && AnswersAll(s)
    requires Fastlane.DistinctCodes(targets) && forall tg | tg in targets :: tg in p.targets
    ensures RunTargets(t, root, p, s, src, targets).error == None
    ensures Translated(t, RunTargets(t, root, p, s, src, targets).tree, root, p, s, src, targets)
    decreases |targets|
  {
    if targets != [] {
      var init := targets[..|targets| - 1];
      assert forall x | x in init :: x in targets;
      RunTargetsTranslatesAll(t, root, p, s, src, init);
      RunTargetsTranslatesLast(t, root, p, s, src, targets);
    }
  }

  lemma RunTargetsTranslatesLast(t: Tree<string>, root: Path, p: Fastlane.Plan, s: LegacyService,
                                 src: Locale, targets: seq<Fastlane.Target>)
    requires t.Valid() && Fastlane.Fits(t, p) && Layout(root, p) && AnswersAll(s)
    requires Fastlane.DistinctCodes(targets) && forall tg | tg in targets :: tg in p.targets
    requires targets != []
    requires var before := RunTargets(t, root, p, s, src, targets[..|targets| - 1]);
             before.error == None && Translated(t, before.tree, root, p, s, src, targets[..|targets| - 1])
    ensures RunTargets(t, root, p, s, src, targets).error == None
    ensures Translated(t, RunTargets(t, root, p, s, src, targets).tree, root, p, s, src, targets)
  {
    var n := |targets| - 1;
    var init := targets[..n];
    var before := RunTargets(t, root, p, s, src, init);
    assert forall x | x in init :: x.code != targets[n].code;
    StepTranslates(t, before.tree, root, p, s, src, init, targets[n]);
    assert init + [targets[n]] == targets;
  }

  /** `translate` with a provider that answers in full: when a plan exists,
      every target folder receives the translation of every source file. */
  lemma TranslationTranslatesAll(t: Tree<string>, root: Path, s: LegacyService, src: Locale, languages: seq<string>,
                                 exclude: seq<string>, catalog: seq<Locale>)
    requires t.Valid() && t.Exists(root) && AnswersAll(s) && Distinct(languages)
    requires Fastlane.MakePlan(t, root, src, languages, exclude, catalog).Some?
    ensures var p := Fastlane.MakePlan(t, root, src, languages, exclude, catalog).value;
            var r := Translation(t, root, s, src, languages, exclude, catalog);
            && r.error == None
            && Translated(t, r.tree, root, p, s, src, p.targets)
  {
    var p := Fastlane.MakePlan(t, root, src, languages, exclude, catalog).value;
    assert Layout(root, p);
    assert Fastlane.DistinctCodes(p.targets);
    RunTargetsTranslatesAll(t, root, p, s, src, p.targets);
  }
}
