/** `StringsXmlTranslator`: which `values-*` folders to translate into, and
    the per-locale incremental update of their `strings.xml` — only the keys
    missing from a target file are sent (placeholders masked), and the
    answers are merged in without touching what is already there. */
module StringsXmlTranslator {
  import opened Wrappers
  import opened Text
  import opened Ordering
  import opened LinkedMaps
  import opened FileTrees
  import opened Locales
  import opened Placeholders
  import opened StringsXml
  import opened LegacyServices

  /** `values/strings.xml`: the source file. */
  function SourceFile(res: Path): Path {
    res + ["values", "strings.xml"]
  }

  /** `values-<androidCode>/strings.xml`: a locale's file, derived from the
      locale and not from the folder it may have been found in. */
  function TargetFile(res: Path, l: Locale): Path {
    res + ["values-" + AndroidCode(l), "strings.xml"]
  }

  // ------------------------------------------------------ resolveTargets

  /** `mapNotNull { it.toIsoLocale() }`: the decodable codes' locales, in order. */
  function Decoded(codes: seq<string>, catalog: seq<Locale>): (r: seq<Locale>)
    ensures forall l :: l in r <==> exists c | c in codes :: ToIsoLocale(c, catalog) == Some(l)
  {
    if codes == [] then []
    else
      var rest := Decoded(codes[1..], catalog);
      assert forall c :: c in codes <==> c == codes[0] || c in codes[1..];
      match ToIsoLocale(codes[0], catalog)
      case None => rest
      case Some(l) => [l] + rest
  }

  /** `localesFrom(codes)`: the codes sorted and decoded; the undecodable
      ones are dropped (with a warning), never an error. */
  function LocalesFrom(codes: seq<string>, catalog: seq<Locale>): (r: seq<Locale>)
    ensures forall l :: l in r <==> exists c | c in codes :: ToIsoLocale(c, catalog) == Some(l)
  {
    var sorted := Sort(codes);
    assert forall c :: c in sorted <==> c in codes by {
      forall c ensures c in sorted <==> c in codes {
        assert c in sorted <==> c in multiset(sorted);
        assert c in codes <==> c in multiset(codes);
      }
    }
    Decoded(sorted, catalog)
  }

  /** The qualifiers of the folders named `values-<qualifier>`. */
  function Qualifiers(names: seq<string>): (r: seq<string>)
    ensures forall q :: q in r <==> "values-" + q in names
  {
    if names == [] then []
    else
      var rest := Qualifiers(names[1..]);
      var n := names[0];
      assert forall x :: x in names <==> x == n || x in names[1..];
      if |n| >= 7 && n[..7] == "values-" then
        assert n == "values-" + n[7..];
        assert forall q :: "values-" + q == n ==> q == n[7..] by {
          forall q | "values-" + q == n ensures q == n[7..] {
            assert ("values-" + q)[7..] == q;
          }
        }
        [n[7..]] + rest
      else
        assert forall q :: "values-" + q != n by {
          forall q ensures "values-" + q != n {
            if |n| >= 7 {
              assert ("values-" + q)[..7] == "values-";
            }
          }
        }
        rest
  }

  /** The codes found by autodetection: every `values-*` folder's
      qualifier that is not excluded. */
  function AutodetectCodes(t: Tree<Document>, res: Path, exclude: seq<string>): (r: seq<string>)
    ensures forall c :: c in r <==> res + ["values-" + c] in t.dirs && c !in exclude
  {
    Unexcluded(Qualifiers(SubdirNames(t.dirs, res)), exclude)
  }

  /** `resolveTargets(res, languages, excludeLanguages)`: the explicit codes
      if any were given, otherwise the autodetected ones, decoded; each
      locale once, in the order the sorted codes first produce it. Its file
      is `TargetFile(res, locale)`. */
  function ResolveTargets(t: Tree<Document>, res: Path, languages: seq<string>, exclude: seq<string>,
                          catalog: seq<Locale>): (r: seq<Locale>)
    ensures Distinct(r)
    ensures languages != [] ==>
              forall l :: l in r <==> exists c | c in languages :: ToIsoLocale(c, catalog) == Some(l)
    ensures languages == [] ==>
              forall l :: l in r <==> exists c | c in AutodetectCodes(t, res, exclude) :: ToIsoLocale(c, catalog) == Some(l)
  {
    var ls := LocalesFrom(if languages != [] then languages else AutodetectCodes(t, res, exclude), catalog);
    var r := Dedup(ls);
    assert forall l :: l in r <==> l in ls by {
      forall l ensures l in r <==> l in ls {
        if l in ls { var i :| 0 <= i < |ls| && ls[i] == l; }
        if l in r { var i :| 0 <= i < |r| && r[i] == l; }
      }
    }
    r
  }

  /** Explicit codes override autodetection: the exclusion list and the
      folders on disk make no difference then. */
  lemma ExplicitIgnoresExclusion(t: Tree<Document>, t': Tree<Document>, res: Path, languages: seq<string>,
                                 exclude: seq<string>, exclude': seq<string>, catalog: seq<Locale>)
    requires languages != []
    ensures ResolveTargets(t, res, languages, exclude, catalog) == ResolveTargets(t', res, languages, exclude', catalog)
  {
  }

  /** Autodetection: a locale is a target exactly when some `values-<q>`
      folder exists whose qualifier `q` is not excluded and decodes to it.
      Nothing else is filtered: the source locale is a target when it has
      such a folder, and bare `values` never is one. */
  lemma AutodetectedTargets(t: Tree<Document>, res: Path, exclude: seq<string>, catalog: seq<Locale>, l: Locale)
    ensures l in ResolveTargets(t, res, [], exclude, catalog)
        <==> exists q :: res + ["values-" + q] in t.dirs && q !in exclude && ToIsoLocale(q, catalog) == Some(l)
  {
    var codes := AutodetectCodes(t, res, exclude);
    if exists q :: res + ["values-" + q] in t.dirs && q !in exclude && ToIsoLocale(q, catalog) == Some(l) {
      var q :| res + ["values-" + q] in t.dirs && q !in exclude && ToIsoLocale(q, catalog) == Some(l);
      assert q in codes;
    }
  }

  // ----------------------------------------------------------- translate

  /** `sourceStrings.keys.filter { it !in existing.keys }`: the source keys
      the target lacks, in source order. */
  function MissingKeys(source: LinkedMap<string>, existing: LinkedMap<string>): (r: seq<string>)
    requires source.Valid()
    ensures forall k :: k in r <==> k in source.values && k !in existing.values
    ensures Distinct(r)
  {
    KeysAreValues(source);
    Missing(source.keys, existing)
  }

  function Missing(keys: seq<string>, existing: LinkedMap<string>): (r: seq<string>)
    ensures forall k :: k in r <==> k in keys && k !in existing.values
    ensures Distinct(keys) ==> Distinct(r)
  {
    if keys == [] then []
    else
      var rest := Missing(keys[1..], existing);
      assert forall k :: k in keys <==> k == keys[0] || k in keys[1..];
      if keys[0] in existing.values then rest
      else
        assert Distinct(keys) ==> keys[0] !in keys[1..];
        [keys[0]] + rest
  }

  /** The texts sent for the missing keys, placeholders masked. */
  function MaskedTexts(source: LinkedMap<string>, keys: seq<string>): (r: seq<string>)
    requires forall k | k in keys :: k in source.values
    ensures |r| == |keys|
    ensures forall i | 0 <= i < |keys| :: r[i] == Mask(source.values[keys[i]])
  {
    if keys == [] then [] else [Mask(source.values[keys[0]])] + MaskedTexts(source, keys[1..])
  }

  /** The provider's answers with placeholders restored. */
  function UnmaskedTexts(texts: seq<string>): (r: seq<string>)
    ensures |r| == |texts|
    ensures forall i | 0 <= i < |texts| :: r[i] == Unmask(texts[i])
  {
    if texts == [] then [] else [Unmask(texts[0])] + UnmaskedTexts(texts[1..])
  }

  /** `existing` plus `missingKeys.zip(translated)`, each addition assigned in turn. */
  function Merged(existing: LinkedMap<string>, missing: seq<string>, translated: seq<string>): LinkedMap<string>
    requires existing.Valid() && Distinct(missing)
  {
    var additions := Zip(missing, UnmaskedTexts(translated));
    PutEach(existing, additions.keys, additions.values)
  }

  /** The merge never overwrites: every existing entry keeps its text,
      including those the source no longer has; the additions are the first
      `min(|missing|, |translated|)` missing keys, each with its answer
      unmasked, and nothing else is added. */
  lemma MergedKeepsExisting(existing: LinkedMap<string>, missing: seq<string>, translated: seq<string>, k: string)
    requires existing.Valid() && Distinct(missing)
    requires forall i | 0 <= i < |missing| :: missing[i] !in existing.values
    ensures var m := Merged(existing, missing, translated);
            var n := Min(|missing|, |translated|);
            && m.Valid()
            && (k in m.values <==> k in existing.values || k in missing[..n])
            && (k in existing.values ==> m.values[k] == existing.values[k])
            && (forall i | 0 <= i < n :: m.values[missing[i]] == Unmask(translated[i]))
  {
    var additions := Zip(missing, UnmaskedTexts(translated));
    var n := Min(|missing|, |translated|);
    assert additions.keys == missing[..n];
    forall i | 0 <= i < n ensures missing[i] in additions.keys {
      assert additions.keys[i] == missing[i];
    }
  }

  /** The existing map of a locale file: read when the path exists, else empty. */
  function Existing(t: Tree<Document>, file: Path): Result<LinkedMap<string>, ParseError> {
    if t.Exists(file) then ParseFile(t, file) else Success(Empty())
  }

  /** A locale's file before and after: the tree, or the parse error that
      aborts the whole run. */
  function LocaleStep(t: Tree<Document>, source: LinkedMap<string>, s: LegacyService, src: Locale,
                      l: Locale, file: Path): (r: Result<Tree<Document>, ParseError>)
    requires t.Valid() && source.Valid()
    ensures r.Success? ==> r.value.Valid()
  {
    match Existing(t, file)
    case Failure(e) => Failure(e)
    case Success(ex) =>
      var missing := MissingKeys(source, ex);
      if missing == [] then Success(t)
      else
        match TranslateBatch(s, MaskedTexts(source, missing), src, l)
        case Failure(_) => Success(t)
        case Success(out) => Success(t.Write(file, Resources(Written(Merged(ex, missing, out)))))
  }

  /** When no key is missing the provider is not asked and nothing is
      written: the step is the same with any other service. */
  lemma NothingMissingNoCall(t: Tree<Document>, source: LinkedMap<string>, s: LegacyService, s': LegacyService,
                             src: Locale, l: Locale, file: Path, ex: LinkedMap<string>)
    requires t.Valid() && source.Valid()
    requires Existing(t, file) == Success(ex) && MissingKeys(source, ex) == []
    ensures LocaleStep(t, source, s, src, l, file) == Success(t)
    ensures LocaleStep(t, source, s', src, l, file) == Success(t)
  {
  }

  /** A failing provider skips the locale: the tree is unchanged and the run
      goes on. */
  lemma ProviderFailureSkipsLocale(t: Tree<Document>, source: LinkedMap<string>, s: LegacyService,
                                   src: Locale, l: Locale, file: Path, ex: LinkedMap<string>)
    requires t.Valid() && source.Valid() && Existing(t, file) == Success(ex)
    requires TranslateBatch(s, MaskedTexts(source, MissingKeys(source, ex)), src, l).Failure?
    ensures LocaleStep(t, source, s, src, l, file) == Success(t)
  {
  }

  /** A step writes at most its own file: every other path is as it was. */
  lemma LocaleStepFrame(t: Tree<Document>, source: LinkedMap<string>, s: LegacyService, src: Locale,
                        l: Locale, file: Path, p: Path)
    requires t.Valid() && source.Valid() && p != file
    requires LocaleStep(t, source, s, src, l, file).Success?
    ensures var t' := LocaleStep(t, source, s, src, l, file).value;
            && t'.dirs == t.dirs
            && (p in t'.files <==> p in t.files)
            && (p in t.files ==> t'.files[p] == t.files[p])
  {
  }

  /** After a successful call the locale's file holds exactly what `write`
      produces for the merged map, and reads back as that map (for names
      whose plural base is not blank): existing entries as they were, plus
      the translations. */
  lemma LocaleStepReadBack(t: Tree<Document>, source: LinkedMap<string>, s: LegacyService, src: Locale,
                           l: Locale, file: Path, ex: LinkedMap<string>, out: seq<string>)
    requires t.Valid() && source.Valid() && Existing(t, file) == Success(ex)
    requires MissingKeys(source, ex) != []
    requires TranslateBatch(s, MaskedTexts(source, MissingKeys(source, ex)), src, l) == Success(out)
    requires forall k | k in Merged(ex, MissingKeys(source, ex), out).values :: !IsBlank(NameOf(k))
    ensures LocaleStep(t, source, s, src, l, file).Success?
    ensures var t' := LocaleStep(t, source, s, src, l, file).value;
            ParseFile(t', file).Success?
            && ParseFile(t', file).value.values == Merged(ex, MissingKeys(source, ex), out).values
  {
    var merged := Merged(ex, MissingKeys(source, ex), out);
    var t' := t.Write(file, Resources(Written(merged)));
    assert LocaleStep(t, source, s, src, l, file) == Success(t');
    PutEachValid(ex, MissingKeys(source, ex), out);
    WriteParseRoundTrip(merged);
  }

  lemma PutEachValid(ex: LinkedMap<string>, missing: seq<string>, out: seq<string>)
    requires ex.Valid() && Distinct(missing)
    ensures Merged(ex, missing, out).Valid()
  {
  }

  /** Masking is undone on the way back: when the provider hands the masked
      texts back unchanged, every added entry is its source text, for texts
      with no `<x1/>`-like markers of their own. */
  lemma EchoAddsSourceTexts(source: LinkedMap<string>, missing: seq<string>)
    requires source.Valid() && Distinct(missing)
    requires forall i | 0 <= i < |missing| :: missing[i] in source.values
    requires forall i | 0 <= i < |missing| :: NoToken(source.values[missing[i]], Masked)
    ensures forall i | 0 <= i < |missing| ::
              UnmaskedTexts(MaskedTexts(source, missing))[i] == source.values[missing[i]]
  {
    forall i | 0 <= i < |missing|
      ensures UnmaskedTexts(MaskedTexts(source, missing))[i] == source.values[missing[i]]
    {
      MaskRoundTrip(source.values[missing[i]]);
    }
  }

  /** The locales handled so far: the tree and, once a file could not be
      parsed, the error that stopped the run. */
  datatype Run = Run(tree: Tree<Document>, error: Option<ParseError>)

  /** `targets.forEach { ... }`: the locales in order; a parse error escapes
      and ends the loop. */
  function RunTargets(t: Tree<Document>, source: LinkedMap<string>, s: LegacyService, src: Locale,
                      res: Path, targets: seq<Locale>): (r: Run)
    requires t.Valid() && source.Valid()
    ensures r.tree.Valid()
  {
    if targets == [] then Run(t, None)
    else
      var before := RunTargets(t, source, s, src, res, targets[..|targets| - 1]);
      var l := targets[|targets| - 1];
      if before.error.Some? then before
      else
        match LocaleStep(before.tree, source, s, src, l, TargetFile(res, l))
        case Failure(e) => Run(before.tree, Some(e))
        case Success(t') => Run(t', None)
  }

  /** Why a run stopped: no source file, or a file that could not be parsed. */
  datatype TranslateError = MissingSource(file: Path) | Unreadable(error: ParseError)

  datatype Outcome = Outcome(tree: Tree<Document>, error: Option<TranslateError>)

  /** `translate(res, service, srcLang, targetLanguages, excludeLanguages)`. */
  function Translation(t: Tree<Document>, res: Path, s: LegacyService, src: Locale, languages: seq<string>,
                       exclude: seq<string>, catalog: seq<Locale>): Outcome
    requires t.Valid()
  {
    var targets := ResolveTargets(t, res, languages, exclude, catalog);
    if targets == [] then Outcome(t, None)
    else if !t.Exists(SourceFile(res)) then Outcome(t, Some(MissingSource(SourceFile(res))))
    else
      match ParseFile(t, SourceFile(res))
      case Failure(e) => Outcome(t, Some(Unreadable(e)))
      case Success(source) =>
        if source.values == map[] then Outcome(t, None)
        else
          var r := RunTargets(t, source, s, src, res, targets);
          Outcome(r.tree, if r.error.Some? then Some(Unreadable(r.error.value)) else None)
  }

  /** The early exits: with no target nothing is read (not even the source
      file); a missing source file is fatal; an empty source is a no-op. */
  lemma EarlyExits(t: Tree<Document>, res: Path, s: LegacyService, src: Locale, languages: seq<string>,
                   exclude: seq<string>, catalog: seq<Locale>)
    requires t.Valid()
    ensures ResolveTargets(t, res, languages, exclude, catalog) == []
            ==> Translation(t, res, s, src, languages, exclude, catalog) == Outcome(t, None)
    ensures ResolveTargets(t, res, languages, exclude, catalog) != [] && !t.Exists(SourceFile(res))
            ==> Translation(t, res, s, src, languages, exclude, catalog)
                == Outcome(t, Some(MissingSource(SourceFile(res))))
    ensures ResolveTargets(t, res, languages, exclude, catalog) != [] && t.Exists(SourceFile(res))
            && ParseFile(t, SourceFile(res)) == Success(Empty())
            ==> Translation(t, res, s, src, languages, exclude, catalog) == Outcome(t, None)
  {
  }

  /** One locale on the file system. */
  method TranslateLocale(fs: FileSystem<Document>, source: LinkedMap<string>, s: LegacyService, src: Locale,
                         l: Locale, file: Path) returns (error: Option<ParseError>)
    requires fs.State().Valid() && source.Valid()
    modifies fs
    ensures match LocaleStep(old(fs.State()), source, s, src, l, file)
            case Failure(e) => error == Some(e) && fs.State() == old(fs.State())
            case Success(t') => error == None && fs.State() == t'
  {
    var existing := Empty();
    if file in fs.dirs || file in fs.files {
      var parsed := Parse(fs, file);
      if parsed.Failure? {
        return Some(parsed.error);
      }
      existing := parsed.value;
    }
    var missing := MissingKeys(source, existing);
    if missing == [] {
      return None;
    }
    var masked := MaskedTexts(source, missing);
    var answer := TranslateBatch(s, masked, src, l);
    if answer.Failure? {
      return None;
    }
    var merged := Merged(existing, missing, answer.value);
    StringsXml.Write(fs, file, merged);
    error := None;
  }

  /** `translate` on the file system: targets first, then the source file,
      then each locale in turn. */
  method Translate(fs: FileSystem<Document>, res: Path, s: LegacyService, src: Locale, languages: seq<string>,
                   exclude: seq<string>, catalog: seq<Locale>) returns (error: Option<TranslateError>)
    requires fs.State().Valid()
    modifies fs
    ensures Outcome(fs.State(), error) == Translation(old(fs.State()), res, s, src, languages, exclude, catalog)
  {
    var targets := ResolveTargets(fs.State(), res, languages, exclude, catalog);
    if targets == [] {
      return None;
    }
    var sourceFile := SourceFile(res);
    if !(sourceFile in fs.dirs || sourceFile in fs.files) {
      return Some(MissingSource(sourceFile));
    }
    var parsed := Parse(fs, sourceFile);
    if parsed.Failure? {
      return Some(Unreadable(parsed.error));
    }
    var source := parsed.value;
    if source.values == map[] {
      return None;
    }
    var failed := TranslateTargets(fs, source, s, src, res, targets);
    error := if failed.Some? then Some(Unreadable(failed.value)) else None;
  }

  /** The `forEach` over the locales: a parse error ends it. */
  method TranslateTargets(fs: FileSystem<Document>, source: LinkedMap<string>, s: LegacyService, src: Locale,
                          res: Path, targets: seq<Locale>) returns (error: Option<ParseError>)
    requires fs.State().Valid() && source.Valid()
    modifies fs
    ensures Run(fs.State(), error) == RunTargets(old(fs.State()), source, s, src, res, targets)
  {
    ghost var t0 := fs.State();
    for i := 0 to |targets|
      invariant fs.State().Valid()
      invariant RunTargets(t0, source, s, src, res, targets[..i]) == Run(fs.State(), None)
    {
      var l := targets[i];
      assert targets[..i + 1][..i] == targets[..i];
      var failed := TranslateLocale(fs, source, s, src, l, TargetFile(res, l));
      if failed.Some? {
        RunTargetsStopped(t0, source, s, src, res, targets, i + 1);
        return failed;
      }
    }
    assert targets[..|targets|] == targets;
    error := None;
  }

  /** Once a locale's file could not be parsed, the later locales change nothing. */
  lemma {:induction false} RunTargetsStopped(t: Tree<Document>, source: LinkedMap<string>, s: LegacyService,
                                             src: Locale, res: Path, targets: seq<Locale>, i: nat)
    requires t.Valid() && source.Valid()
    requires i <= |targets| && RunTargets(t, source, s, src, res, targets[..i]).error.Some?
    ensures RunTargets(t, source, s, src, res, targets) == RunTargets(t, source, s, src, res, targets[..i])
    decreases |targets|
  {
    if i < |targets| {
      var init := targets[..|targets| - 1];
      assert init[..i] == targets[..i];
      RunTargetsStopped(t, source, s, src, res, init, i);
    } else {
      assert targets[..i] == targets;
    }
  }
}
