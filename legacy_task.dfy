/** The first-generation `AutoTranslateTask`: a single Gradle task that
    reads `values/strings.xml`, finds the target languages, and fills each
    `values-<lang>/strings.xml` with the `<string>` entries it lacks. It knows
    no plurals, no placeholder masking and no locale decoding: languages are
    raw folder qualifiers. Every I/O failure inside the loop is caught and
    logged, so the loop itself never stops early. */
module LegacyTask {
  import opened Wrappers
  import opened Text
  import opened Ordering
  import opened LinkedMaps
  import opened FileTrees
  import opened StringsXml
  import StringsXmlTranslator

  /** `TranslationProvider.translateBatch(texts, sourceLanguage, targetLanguage)`:
      the answers, or the exception it threw. */
  type Provider = (seq<string>, string, string) -> Result<seq<string>, string>

  /** The task's inputs. The conventions are `provider = "deepl"`,
      `sourceLanguage = "en"`, `targetLanguages = []` and
      `detectLanguagesFromProject = true`; `apiKey` has none. */
  datatype Config = Config(
    res: Path,
    provider: string,
    apiKey: Option<string>,
    sourceLanguage: string,
    targetLanguages: seq<string>,
    detect: bool)

  function Conventions(res: Path, apiKey: Option<string>): Config {
    Config(res, "deepl", apiKey, "en", [], true)
  }

  // -------------------------------------------------- resolveTargetLanguages

  /** `name.removePrefix("values-")` for a name that has the prefix. */
  function QualifierOf(n: string): (r: Option<string>)
    ensures r.Some? ==> n == "values-" + r.value
    ensures r.None? ==> forall q :: n != "values-" + q
  {
    if |n| >= 7 && n[..7] == "values-" then
      assert n == "values-" + n[7..];
      Some(n[7..])
    else
      assert forall q :: n != "values-" + q by {
        forall q ensures n != "values-" + q {
          if |n| >= 7 {
            assert ("values-" + q)[..7] == "values-";
          }
        }
      }
      None
  }

  /** The language a sub-directory contributes: for `values-<q>` with a
      non-blank `q`, the part of `q` before its first '-'. */
  function LanguageOf(n: string): (r: Option<string>)
    ensures r.Some? <==> exists q :: n == "values-" + q && !IsBlank(q)
    ensures r.Some? ==> exists q :: n == "values-" + q && !IsBlank(q) && r.value == SubstringBefore(q, '-')
  {
    match QualifierOf(n)
    case None => None
    case Some(q) =>
      assert forall q' :: n == "values-" + q' ==> q' == q by {
        forall q' | n == "values-" + q' ensures q' == q {
          assert ("values-" + q')[7..] == q';
          assert ("values-" + q)[7..] == q;
        }
      }
      if IsBlank(q) then None else Some(SubstringBefore(q, '-'))
  }

  /** The languages the listed sub-directories contribute, in listing order,
      repeats included. */
  function Languages(names: seq<string>): seq<string> {
    if names == [] then []
    else
      var n := names[|names| - 1];
      Languages(names[..|names| - 1]) + (if LanguageOf(n).Some? then [LanguageOf(n).value] else [])
  }

  lemma LanguagesSnoc(names: seq<string>, i: nat)
    requires i < |names|
    ensures Languages(names[..i + 1])
         == Languages(names[..i]) + (if LanguageOf(names[i]).Some? then [LanguageOf(names[i]).value] else [])
  {
    assert names[..i + 1][..i] == names[..i];
  }

  lemma {:induction false} LanguagesContent(names: seq<string>, c: string)
    ensures c in Languages(names) <==> exists i | 0 <= i < |names| :: LanguageOf(names[i]) == Some(c)
  {
    if names != [] {
      var init := names[..|names| - 1];
      LanguagesContent(init, c);
      assert forall i | 0 <= i < |init| :: init[i] == names[i];
    }
  }

  /** The sub-directory names of `res`, or none when `res` does not exist. */
  function Listing(t: Tree<Document>, res: Path): (names: seq<string>)
    ensures forall n :: n in names <==> t.Exists(res) && res + [n] in t.dirs
  {
    if t.Exists(res) then SubdirNames(t.dirs, res) else []
  }

  /** `resolveTargetLanguages(res)`: the explicit list when it is not empty,
      otherwise nothing when detection is off, otherwise the distinct
      detected languages, sorted. */
  function TargetLanguages(t: Tree<Document>, cfg: Config): seq<string> {
    if cfg.targetLanguages != [] then cfg.targetLanguages
    else if !cfg.detect then []
    else SortedSet(Languages(Listing(t, cfg.res)))
  }

  /** Explicit languages are taken as given (repeats, order and all);
      with detection off and none given there are none. */
  lemma TargetLanguagesGiven(t: Tree<Document>, cfg: Config)
    ensures cfg.targetLanguages != [] ==> TargetLanguages(t, cfg) == cfg.targetLanguages
    ensures cfg.targetLanguages == [] && !cfg.detect ==> TargetLanguages(t, cfg) == []
  {
  }

  /** Detection yields, sorted and each once, exactly the first
      '-'-separated segment of every non-blank qualifier of a `values-<q>`
      folder in an existing `res`. */
  lemma TargetLanguagesDetected(t: Tree<Document>, cfg: Config, c: string)
    requires cfg.targetLanguages == [] && cfg.detect
    ensures StrictlySorted(TargetLanguages(t, cfg))
    ensures c in TargetLanguages(t, cfg)
        <==> t.Exists(cfg.res)
             && exists q :: cfg.res + ["values-" + q] in t.dirs && !IsBlank(q) && SubstringBefore(q, '-') == c
  {
    var names := Listing(t, cfg.res);
    assert TargetLanguages(t, cfg) == SortedSet(Languages(names));
    LanguagesContent(names, c);
    if c in Languages(names) {
      var i :| 0 <= i < |names| && LanguageOf(names[i]) == Some(c);
      DetectedFolder(t, cfg.res, names[i], c);
    }
    if t.Exists(cfg.res) && exists q :: cfg.res + ["values-" + q] in t.dirs && !IsBlank(q) && SubstringBefore(q, '-') == c {
      var q :| cfg.res + ["values-" + q] in t.dirs && !IsBlank(q) && SubstringBefore(q, '-') == c;
      FolderDetected(t, cfg.res, q, c);
    }
  }

  lemma DetectedFolder(t: Tree<Document>, res: Path, n: string, c: string)
    requires n in Listing(t, res) && LanguageOf(n) == Some(c)
    ensures t.Exists(res)
    ensures exists q :: res + ["values-" + q] in t.dirs && !IsBlank(q) && SubstringBefore(q, '-') == c
  {
    var q :| n == "values-" + q && !IsBlank(q) && c == SubstringBefore(q, '-');
    assert res + ["values-" + q] in t.dirs;
  }

  lemma FolderDetected(t: Tree<Document>, res: Path, q: string, c: string)
    requires t.Exists(res) && res + ["values-" + q] in t.dirs && !IsBlank(q) && SubstringBefore(q, '-') == c
    ensures exists i | 0 <= i < |Listing(t, res)| :: LanguageOf(Listing(t, res)[i]) == Some(c)
  {
    var names := Listing(t, res);
    var n := "values-" + q;
    assert n in names;
    var i :| 0 <= i < |names| && names[i] == n;
    assert LanguageOf(n) == Some(c);
  }

  /** `resolveTargetLanguages` on the file system: the listing is walked
      once, each language added to a set, and the set sorted. */
  method ResolveTargetLanguages(fs: FileSystem<Document>, cfg: Config) returns (langs: seq<string>)
    ensures langs == TargetLanguages(fs.State(), cfg)
  {
    if cfg.targetLanguages != [] {
      return cfg.targetLanguages;
    }
    if !cfg.detect {
      return [];
    }
    var locales: seq<string> := [];
    var names: seq<string> := [];
    if cfg.res in fs.dirs || cfg.res in fs.files {
      names := SubdirNames(fs.dirs, cfg.res);
    }
    for i := 0 to |names|
      invariant locales == Dedup(Languages(names[..i]))
    {
      LanguagesSnoc(names, i);
      var lang := LanguageOf(names[i]);
      if lang.Some? {
        assert Languages(names[..i + 1]) == Languages(names[..i]) + [lang.value];
        DedupSnoc(Languages(names[..i]), lang.value);
        if lang.value !in locales {
          locales := locales + [lang.value];
        }
      } else {
        assert Languages(names[..i + 1]) == Languages(names[..i]);
      }
    }
    assert names[..|names|] == names;
    langs := Sort(locales);
  }

  lemma DedupSnoc(xs: seq<string>, x: string)
    ensures Dedup(xs + [x]) == if x in Dedup(xs) then Dedup(xs) else Dedup(xs) + [x]
  {
    assert (xs + [x])[..|xs|] == xs;
  }

  // ---------------------------------------------------------- parseStringsXml

  /** `parseStringsXml(file)`: the kept `<string>` elements only (a
      non-blank name, not `translatable="false"`), each assigned in document
      order; a missing or unreadable file gives an empty map. `<plurals>`
      are not read. */
  function ReadStrings(t: Tree<Document>, file: Path): (m: LinkedMap<string>)
    ensures m.Valid()
  {
    if file in t.files && t.files[file].Resources? then PutPairs(Empty(), StringEntries(t.files[file].elements))
    else Empty()
  }

  /** A key is read exactly when a kept `<string>` carries it, so a read key
      is never blank; a later element with the same name wins. */
  lemma ReadStringsKeys(els: seq<Element>, k: string)
    ensures k in PutPairs(Empty(), StringEntries(els)).values
        <==> exists i | 0 <= i < |els| :: KeptString(els[i]) && els[i].name == k
    ensures k in PutPairs(Empty(), StringEntries(els)).values ==> !IsBlank(k)
  {
    var ps := StringEntries(els);
    PutPairsKeys(Empty(), ps, k);
    if exists n | 0 <= n < |ps| :: ps[n].0 == k {
      var n :| 0 <= n < |ps| && ps[n].0 == k;
      StringEntriesContent(els, ps[n]);
    }
    if exists i | 0 <= i < |els| :: KeptString(els[i]) && els[i].name == k {
      var i :| 0 <= i < |els| && KeptString(els[i]) && els[i].name == k;
      StringEntriesContent(els, (k, els[i].text));
      var n :| 0 <= n < |ps| && ps[n] == (k, els[i].text);
    }
  }

  /** Nothing a file holds under a blank name, under `translatable="false"`
      or inside `<plurals>` is ever read. */
  lemma ReadStringsSkips(t: Tree<Document>, file: Path, k: string)
    requires k in ReadStrings(t, file).values
    ensures !IsBlank(k)
    ensures file in t.files && t.files[file].Resources?
    ensures exists e | e in t.files[file].elements :: KeptString(e) && e.name == k
  {
    ReadStringsKeys(t.files[file].elements, k);
  }

  /** `parseStringsXml` on the file system. */
  method ParseStringsXml(fs: FileSystem<Document>, file: Path) returns (m: LinkedMap<string>)
    ensures m == ReadStrings(fs.State(), file)
  {
    if file !in fs.files {
      return Empty();
    }
    match fs.files[file]
    case Malformed(_) =>
      m := Empty();
    case Resources(els) =>
      m := PutStrings(els);
  }

  // ---------------------------------------------------------- writeStringsXml

  /** One `<string name=k>v</string>` per key of `ks`, in order. */
  function StringElements(ks: seq<string>, vals: map<string, string>): (els: seq<Element>)
    requires forall i | 0 <= i < |ks| :: ks[i] in vals
    ensures |els| == |ks|
    ensures forall i | 0 <= i < |ks| :: els[i] == StringEl(ks[i], "", vals[ks[i]])
  {
    if ks == [] then []
    else StringElements(ks[..|ks| - 1], vals) + [StringEl(ks[|ks| - 1], "", vals[ks[|ks| - 1]])]
  }

  /** What `writeStringsXml(file, entries)` puts in the file: the entries as
      `<string>` elements in ascending key order, with no `translatable`
      attribute. */
  function WrittenStrings(m: LinkedMap<string>): (els: seq<Element>)
    requires m.Valid()
  {
    var ks := Sort(m.keys);
    SortKeys(m);
    StringElements(ks, m.values)
  }

  lemma SortKeys(m: LinkedMap<string>)
    requires m.Valid()
    ensures forall k :: k in Sort(m.keys) <==> k in m.values
    ensures StrictlySorted(Sort(m.keys))
  {
    KeysAreValues(m);
    SortDistinct(m.keys);
  }

  /** The written file lists every entry once, sorted by name, each with its
      value, and nothing else. */
  lemma WrittenStringsContent(m: LinkedMap<string>)
    requires m.Valid()
    ensures var els := WrittenStrings(m);
            && |els| == |m.values|
            && (forall i | 0 <= i < |els| :: els[i].StringEl? && els[i].translatable == ""
                                             && els[i].name in m.values && els[i].text == m.values[els[i].name])
            && (forall i, j | 0 <= i < j < |els| :: Below(els[i].name, els[j].name) && els[i].name != els[j].name)
            && (forall k | k in m.values :: exists i | 0 <= i < |els| :: els[i].name == k)
  {
    SortKeys(m);
    DistinctLength(m);
    assert WrittenStrings(m) == StringElements(Sort(m.keys), m.values);
    ElementsContent(Sort(m.keys), m.values);
  }

  lemma ElementsContent(ks: seq<string>, vals: map<string, string>)
    requires StrictlySorted(ks)
    requires forall k :: k in ks <==> k in vals
    ensures var els := StringElements(ks, vals);
            && (forall i | 0 <= i < |els| :: els[i].StringEl? && els[i].translatable == ""
                                             && els[i].name in vals && els[i].text == vals[els[i].name])
            && (forall i, j | 0 <= i < j < |els| :: Below(els[i].name, els[j].name) && els[i].name != els[j].name)
            && (forall k | k in vals :: exists i | 0 <= i < |els| :: els[i].name == k)
  {
    var els := StringElements(ks, vals);
    forall k | k in vals ensures exists i | 0 <= i < |els| :: els[i].name == k {
      var i :| 0 <= i < |ks| && ks[i] == k;
      assert els[i].name == k;
    }
  }

  /** A map has as many keys in its key list as in its key set. */
  lemma DistinctLength(m: LinkedMap<string>)
    requires m.Valid()
    ensures |Sort(m.keys)| == |m.values|
  {
    KeysAreValues(m);
    assert |multiset(Sort(m.keys))| == |m.keys|;
    assert |Sort(m.keys)| == |m.keys|;
    KeysCardinality(m.keys, m.values);
  }

  lemma {:induction false} KeysCardinality(ks: seq<string>, vals: map<string, string>)
    requires Distinct(ks)
    requires forall k :: k in ks <==> k in vals
    ensures |ks| == |vals|
    decreases |ks|
  {
    if ks == [] {
      assert vals == map[];
    } else {
      var k := ks[|ks| - 1];
      var init := ks[..|ks| - 1];
      assert ks == init + [k];
      var rest := map k' | k' in vals && k' != k :: vals[k'];
      assert vals.Keys == rest.Keys + {k};
      KeysCardinality(init, rest);
    }
  }

  /** Every written element is kept when read back, as long as its name is
      not blank: the read assignments are the written pairs in order. */
  lemma {:induction false} StringElementsRead(ks: seq<string>, vals: map<string, string>)
    requires forall i | 0 <= i < |ks| :: ks[i] in vals && !IsBlank(ks[i])
    ensures StringEntries(StringElements(ks, vals)) == Pairs(ks, vals)
    decreases |ks|
  {
    if ks != [] {
      var init := ks[..|ks| - 1];
      var els := StringElements(ks, vals);
      assert els[..|els| - 1] == StringElements(init, vals);
      assert !IsFalseIgnoringCase("");
      StringElementsRead(init, vals);
    }
  }

  /** The pairs `(k, vals[k])` for the keys `ks`, in order. */
  function Pairs(ks: seq<string>, vals: map<string, string>): (ps: seq<Entry>)
    requires forall i | 0 <= i < |ks| :: ks[i] in vals
    ensures |ps| == |ks|
    ensures forall i | 0 <= i < |ks| :: ps[i] == (ks[i], vals[ks[i]])
  {
    if ks == [] then [] else Pairs(ks[..|ks| - 1], vals) + [(ks[|ks| - 1], vals[ks[|ks| - 1]])]
  }

  /** Writing then reading gives the same entries back, provided no key is
      blank (a blank name would be dropped by the reader). */
  lemma WriteReadRoundTrip(m: LinkedMap<string>)
    requires m.Valid()
    requires forall k | k in m.values :: !IsBlank(k)
    ensures PutPairs(Empty(), StringEntries(WrittenStrings(m))).values == m.values
  {
    var ks := Sort(m.keys);
    SortKeys(m);
    assert WrittenStrings(m) == StringElements(ks, m.values);
    StringElementsRead(ks, m.values);
    PairsRead(ks, m.values);
  }

  /** Assigning `(k, vals[k])` for every key of `vals` rebuilds `vals`. */
  lemma PairsRead(ks: seq<string>, vals: map<string, string>)
    requires forall k :: k in ks <==> k in vals
    ensures PutPairs(Empty(), Pairs(ks, vals)).values == vals
  {
    var ps := Pairs(ks, vals);
    var r := PutPairs(Empty(), ps);
    PutPairsAgree(Empty(), ps, vals);
    forall k | k in vals ensures k in r.values {
      PairsKey(ks, vals, ps, k);
    }
    SameMaps(r.values, vals);
  }

  lemma PairsKey(ks: seq<string>, vals: map<string, string>, ps: seq<Entry>, k: string)
    requires forall k' :: k' in ks <==> k' in vals
    requires ps == Pairs(ks, vals) && k in vals
    ensures k in PutPairs(Empty(), ps).values
  {
    PutPairsKeys(Empty(), ps, k);
    var i :| 0 <= i < |ks| && ks[i] == k;
    assert ps[i].0 == k;
  }

  /** A blank key is lost by the round trip: the writer emits it, the reader
      drops it. */
  lemma BlankKeyIsLost(m: LinkedMap<string>, k: string)
    requires m.Valid() && k in m.values && IsBlank(k)
    ensures exists i | 0 <= i < |WrittenStrings(m)| :: WrittenStrings(m)[i].name == k
    ensures k !in PutPairs(Empty(), StringEntries(WrittenStrings(m))).values
  {
    WrittenStringsContent(m);
    ReadStringsKeys(WrittenStrings(m), k);
  }

  /** `writeStringsXml` on the file system: the `<string>` elements are
      built one per sorted key, then the file is written. */
  method WriteStringsXml(fs: FileSystem<Document>, file: Path, entries: LinkedMap<string>)
    requires fs.State().Valid() && entries.Valid()
    modifies fs
    ensures fs.State() == old(fs.State()).Write(file, Resources(WrittenStrings(entries)))
  {
    var ks := Sort(entries.keys);
    SortKeys(entries);
    var els: seq<Element> := [];
    for i := 0 to |ks|
      invariant els == StringElements(ks[..i], entries.values)
    {
      assert ks[..i + 1][..i] == ks[..i];
      els := els + [StringEl(ks[i], "", entries.values[ks[i]])];
    }
    assert ks[..|ks|] == ks;
    fs.WriteFile(file, Resources(els));
  }

  // ---------------------------------------------------------------- translate

  /** Which provider `translate` ends up with. */
  datatype Choice = UseOverride | UseDeepL(key: string) | NoProvider

  /** The override set for tests wins; otherwise only `deepl` (in any case)
      with a non-blank API key gives a provider. */
  function Choose(hasOverride: bool, provider: string, apiKey: Option<string>): (c: Choice)
    ensures c == UseOverride <==> hasOverride
    ensures c.UseDeepL? <==> !hasOverride && Lower(provider) == "deepl" && apiKey.Some? && !IsBlank(apiKey.value)
    ensures c.UseDeepL? ==> c.key == apiKey.value
  {
    if hasOverride then UseOverride
    else if Lower(provider) == "deepl" then
      if apiKey.None? || IsBlank(apiKey.value) then NoProvider else UseDeepL(apiKey.value)
    else NoProvider
  }

  /** `values-<lang>/strings.xml`, with the language exactly as resolved. */
  function TargetFile(res: Path, lang: string): Path {
    res + ["values-" + lang, "strings.xml"]
  }

  function BaseFile(res: Path): Path {
    res + ["values", "strings.xml"]
  }

  /** `missingKeys.map { baseStrings[it] ?: "" }`: the base texts, unmasked. */
  function BaseTexts(base: LinkedMap<string>, keys: seq<string>): (r: seq<string>)
    requires forall k | k in keys :: k in base.values
    ensures |r| == |keys|
    ensures forall i | 0 <= i < |keys| :: r[i] == base.values[keys[i]]
  {
    if keys == [] then [] else [base.values[keys[0]]] + BaseTexts(base, keys[1..])
  }

  /** `putAll(existing)` then each of `missingKeys.zip(translated)` assigned. */
  function Merged(existing: LinkedMap<string>, missing: seq<string>, translated: seq<string>): (m: LinkedMap<string>)
    requires existing.Valid() && Distinct(missing)
    ensures m.Valid()
  {
    var additions := Zip(missing, translated);
    PutEach(existing, additions.keys, additions.values)
  }

  /** The merge never overwrites an existing entry; the additions are the
      first `min(|missing|, |translated|)` missing keys, each with its
      answer, and nothing else is added. */
  lemma MergedKeepsExisting(existing: LinkedMap<string>, missing: seq<string>, translated: seq<string>, k: string)
    requires existing.Valid() && Distinct(missing)
    requires forall i | 0 <= i < |missing| :: missing[i] !in existing.values
    ensures var m := Merged(existing, missing, translated);
            var n := Min(|missing|, |translated|);
            && (k in m.values <==> k in existing.values || k in missing[..n])
            && (k in existing.values ==> m.values[k] == existing.values[k])
            && (forall i | 0 <= i < n :: m.values[missing[i]] == translated[i])
  {
    var additions := Zip(missing, translated);
    var n := Min(|missing|, |translated|);
    assert additions.keys == missing[..n];
    forall i | 0 <= i < n ensures missing[i] in additions.keys {
      assert additions.keys[i] == missing[i];
    }
  }

  /** The existing entries of a language's file: read when it exists. */
  function Existing(t: Tree<Document>, file: Path): (m: LinkedMap<string>)
    ensures m.Valid()
  {
    if t.Exists(file) then ReadStrings(t, file) else Empty()
  }

  /** One language of `langs.forEach`: nothing missing or a failed request
      leaves the tree as it was; otherwise the merged map is written. */
  function LangStep(t: Tree<Document>, res: Path, base: LinkedMap<string>, p: Provider, source: string,
                    lang: string): (r: Tree<Document>)
    requires t.Valid() && base.Valid()
    ensures r.Valid()
  {
    var file := TargetFile(res, lang);
    var existing := Existing(t, file);
    var missing := StringsXmlTranslator.MissingKeys(base, existing);
    if missing == [] then t
    else
      match p(BaseTexts(base, missing), source, lang)
      case Failure(_) => t
      case Success(translated) => t.Write(file, Resources(WrittenStrings(Merged(existing, missing, translated))))
  }

  /** The languages handled in order; no failure stops the loop. */
  function RunLangs(t: Tree<Document>, res: Path, base: LinkedMap<string>, p: Provider, source: string,
                    langs: seq<string>): (r: Tree<Document>)
    requires t.Valid() && base.Valid()
    ensures r.Valid()
  {
    if langs == [] then t
    else LangStep(RunLangs(t, res, base, p, source, langs[..|langs| - 1]), res, base, p, source, langs[|langs| - 1])
  }

  /** `translate()`: resolve the languages, pick the provider, read the base
      file, then handle each language. `deepl` stands for the
      `DeepLTranslationProvider(key)` constructor. */
  function Translation(t: Tree<Document>, cfg: Config, override: Option<Provider>,
                       deepl: string -> Provider): (r: Tree<Document>)
    requires t.Valid()
    ensures r.Valid()
  {
    var langs := TargetLanguages(t, cfg);
    var choice := Choose(override.Some?, cfg.provider, cfg.apiKey);
    if langs == [] || choice == NoProvider then t
    else if !t.Exists(BaseFile(cfg.res)) then t
    else
      var base := ReadStrings(t, BaseFile(cfg.res));
      if base.values == map[] then t
      else
        var p := if choice == UseOverride then override.value else deepl(choice.key);
        RunLangs(t, cfg.res, base, p, cfg.sourceLanguage, langs)
  }

  /** The early exits leave every file as it was: no language, no provider,
      no base file, or a base file with nothing to translate. */
  lemma EarlyExits(t: Tree<Document>, cfg: Config, override: Option<Provider>, deepl: string -> Provider)
    requires t.Valid()
    ensures TargetLanguages(t, cfg) == [] ==> Translation(t, cfg, override, deepl) == t
    ensures Choose(override.Some?, cfg.provider, cfg.apiKey) == NoProvider ==> Translation(t, cfg, override, deepl) == t
    ensures !t.Exists(BaseFile(cfg.res)) ==> Translation(t, cfg, override, deepl) == t
    ensures ReadStrings(t, BaseFile(cfg.res)).values == map[] ==> Translation(t, cfg, override, deepl) == t
  {
  }

  /** With the conventions and no override, a missing or blank API key means
      a dry run: nothing is written. */
  lemma NoKeyDryRun(t: Tree<Document>, res: Path, key: Option<string>, deepl: string -> Provider)
    requires t.Valid()
    requires key.None? || IsBlank(key.value)
    ensures Translation(t, Conventions(res, key), None, deepl) == t
  {
    assert Lower("deepl") == "deepl";
  }

  /** A step writes at most its language's file. */
  lemma LangStepFrame(t: Tree<Document>, res: Path, base: LinkedMap<string>, p: Provider, source: string,
                      lang: string, q: Path)
    requires t.Valid() && base.Valid() && q != TargetFile(res, lang)
    ensures var t' := LangStep(t, res, base, p, source, lang);
            && t'.dirs == t.dirs
            && (q in t'.files <==> q in t.files)
            && (q in t.files ==> t'.files[q] == t.files[q])
  {
  }

  /** After a successful request the language's file reads back as the
      merged map: its previous entries plus the additions (see
      `MergedKeepsExisting`). */
  lemma LangStepWrites(t: Tree<Document>, res: Path, base: LinkedMap<string>, p: Provider, source: string,
                       lang: string, existing: LinkedMap<string>, missing: seq<string>, translated: seq<string>)
    requires t.Valid() && base.Valid()
    requires forall k' | k' in base.values :: !IsBlank(k')
    requires existing == Existing(t, TargetFile(res, lang))
    requires missing == StringsXmlTranslator.MissingKeys(base, existing) && missing != []
    requires p(BaseTexts(base, missing), source, lang) == Success(translated)
    ensures ReadStrings(LangStep(t, res, base, p, source, lang), TargetFile(res, lang)).values
         == Merged(existing, missing, translated).values
  {
    var merged := Merged(existing, missing, translated);
    LangStepIsWrite(t, res, base, p, source, lang, existing, missing, translated);
    ReadAfterWrite(t, TargetFile(res, lang), WrittenStrings(merged));
    MergedNotBlank(t, TargetFile(res, lang), base, existing, missing, translated);
    WriteReadRoundTrip(merged);
  }

  lemma ReadAfterWrite(t: Tree<Document>, file: Path, els: seq<Element>)
    requires t.Valid()
    ensures ReadStrings(t.Write(file, Resources(els)), file) == PutPairs(Empty(), StringEntries(els))
  {
  }

  lemma LangStepIsWrite(t: Tree<Document>, res: Path, base: LinkedMap<string>, p: Provider, source: string,
                        lang: string, existing: LinkedMap<string>, missing: seq<string>, translated: seq<string>)
    requires t.Valid() && base.Valid()
    requires existing == Existing(t, TargetFile(res, lang))
    requires missing == StringsXmlTranslator.MissingKeys(base, existing) && missing != []
    requires p(BaseTexts(base, missing), source, lang) == Success(translated)
    ensures LangStep(t, res, base, p, source, lang)
         == t.Write(TargetFile(res, lang), Resources(WrittenStrings(Merged(existing, missing, translated))))
  {
  }

  lemma MergedNotBlank(t: Tree<Document>, file: Path, base: LinkedMap<string>, existing: LinkedMap<string>,
                       missing: seq<string>, translated: seq<string>)
    requires base.Valid() && forall k' | k' in base.values :: !IsBlank(k')
    requires existing == Existing(t, file)
    requires missing == StringsXmlTranslator.MissingKeys(base, existing)
    ensures forall k | k in Merged(existing, missing, translated).values :: !IsBlank(k)
  {
    forall k | k in Merged(existing, missing, translated).values ensures !IsBlank(k) {
      MergedKeepsExisting(existing, missing, translated, k);
      if k in existing.values {
        ExistingNotBlank(t, file, k);
      }
    }
  }

  lemma ExistingNotBlank(t: Tree<Document>, file: Path, k: string)
    requires k in Existing(t, file).values
    ensures !IsBlank(k)
  {
    ReadStringsSkips(t, file, k);
  }

  /** Only the missing base keys are ever sent, each with its base text. */
  lemma OnlyMissingSent(t: Tree<Document>, res: Path, base: LinkedMap<string>, lang: string)
    requires base.Valid()
    ensures var existing := Existing(t, TargetFile(res, lang));
            var missing := StringsXmlTranslator.MissingKeys(base, existing);
            var texts := BaseTexts(base, missing);
            && |texts| == |missing|
            && (forall i | 0 <= i < |missing| ::
                  missing[i] in base.values && missing[i] !in existing.values && texts[i] == base.values[missing[i]])
  {
  }

  /** `langs.forEach` on the file system. */
  method TranslateLang(fs: FileSystem<Document>, res: Path, base: LinkedMap<string>, p: Provider, source: string,
                       lang: string)
    requires fs.State().Valid() && base.Valid()
    modifies fs
    ensures fs.State() == LangStep(old(fs.State()), res, base, p, source, lang)
  {
    var file := TargetFile(res, lang);
    var existing := Empty();
    if file in fs.dirs || file in fs.files {
      existing := ParseStringsXml(fs, file);
    }
    var missing := StringsXmlTranslator.MissingKeys(base, existing);
    if missing == [] {
      return;
    }
    var texts := BaseTexts(base, missing);
    var translated := p(texts, source, lang);
    if translated.Failure? {
      return;
    }
    var merged := Merged(existing, missing, translated.value);
    WriteStringsXml(fs, file, merged);
  }

  /** `translate()` on the file system. */
  method Translate(fs: FileSystem<Document>, cfg: Config, override: Option<Provider>, deepl: string -> Provider)
    requires fs.State().Valid()
    modifies fs
    ensures fs.State() == Translation(old(fs.State()), cfg, override, deepl)
  {
    var langs := ResolveTargetLanguages(fs, cfg);
    if langs == [] {
      return;
    }
    var choice := Choose(override.Some?, cfg.provider, cfg.apiKey);
    if choice == NoProvider {
      return;
    }
    var p := if choice == UseOverride then override.value else deepl(choice.key);
    var baseFile := BaseFile(cfg.res);
    if !(baseFile in fs.dirs || baseFile in fs.files) {
      return;
    }
    var base := ParseStringsXml(fs, baseFile);
    if base.values == map[] {
      return;
    }
    TranslateLangs(fs, cfg.res, base, p, cfg.sourceLanguage, langs);
  }

  /** `langs.forEach { ... }`. */
  method TranslateLangs(fs: FileSystem<Document>, res: Path, base: LinkedMap<string>, p: Provider, source: string,
                        langs: seq<string>)
    requires fs.State().Valid() && base.Valid()
    modifies fs
    ensures fs.State() == RunLangs(old(fs.State()), res, base, p, source, langs)
  {
    ghost var t0 := fs.State();
    for i := 0 to |langs|
      invariant fs.State().Valid()
      invariant fs.State() == RunLangs(t0, res, base, p, source, langs[..i])
    {
      assert langs[..i + 1][..i] == langs[..i];
      TranslateLang(fs, res, base, p, source, langs[i]);
    }
    assert langs[..|langs|] == langs;
  }

  // ------------------------------------------------- the integration scenario

  /** Each text tagged with ` [<target>]`. */
  function Tag(texts: seq<string>, target: string): (r: seq<string>)
    ensures |r| == |texts|
    ensures forall i | 0 <= i < |texts| :: r[i] == texts[i] + " [" + target + "]"
  {
    if texts == [] then [] else [texts[0] + " [" + target + "]"] + Tag(texts[1..], target)
  }

  /** A stub provider that answers only for source `en`, tagging each text. */
  function Tagging(texts: seq<string>, source: string, target: string): Result<seq<string>, string> {
    if source == "en" then Success(Tag(texts, target)) else Failure("unexpected source language")
  }

  const Res: Path := ["src", "main", "res"]

  /** The base file: `hello`, `bye` and an untranslatable `skip_me`. */
  const BaseEls: seq<Element> :=
    [StringEl("hello", "", "Hello"), StringEl("bye", "", "Bye"), StringEl("skip_me", "false", "DO NOT TRANSLATE")]

  /** The German file, which already has `hello`. */
  const GermanEls: seq<Element> := [StringEl("hello", "", "Hallo")]

  /** What the base file reads as. */
  function BaseMap(): (m: LinkedMap<string>)
    ensures m.Valid() && m.keys == ["hello", "bye"]
  {
    assert |"hello"| != |"bye"|;
    LinkedMap(["hello", "bye"], map["hello" := "Hello", "bye" := "Bye"])
  }

  /** What the German file reads as. */
  function GermanMap(): (m: LinkedMap<string>)
    ensures m.Valid() && m.keys == ["hello"]
  {
    LinkedMap(["hello"], map["hello" := "Hallo"])
  }

  /** The scenario's paths are three different files. */
  lemma ScenarioPaths()
    ensures BaseFile(Res) != TargetFile(Res, "de") && BaseFile(Res) != TargetFile(Res, "fr")
    ensures TargetFile(Res, "fr") != TargetFile(Res, "de")
  {
    assert BaseFile(Res)[3] == "values" && TargetFile(Res, "de")[3] == "values-de" && TargetFile(Res, "fr")[3] == "values-fr";
    assert "values"[..] != "values-de" && "values" != "values-fr";
    assert "values-fr"[7] != "values-de"[7];
  }

  /** The stub's answers in the scenario. */
  lemma ScenarioAnswers()
    ensures Tag(["Bye"], "de") == ["Bye [de]"]
    ensures Tag(["Hello", "Bye"], "fr") == ["Hello [fr]", "Bye [fr]"]
  {
    assert Tag(["Bye"], "de")[0] == "Bye [de]";
    var r := Tag(["Hello", "Bye"], "fr");
    assert r[0] == "Hello [fr]" && r[1] == "Bye [fr]";
  }

  lemma ScenarioNames()
    ensures !IsBlank("hello") && !IsBlank("bye") && !IsBlank("skip_me")
    ensures IsFalseIgnoringCase("false") && !IsFalseIgnoringCase("")
  {
    assert "hello"[0] == 'h' && "bye"[0] == 'b' && "skip_me"[0] == 's';
  }

  /** The base file reads as `hello` then `bye`; `skip_me` is dropped. */
  lemma BaseEntries()
    ensures PutPairs(Empty(), StringEntries(BaseEls)) == BaseMap()
  {
    var ps := [("hello", "Hello"), ("bye", "Bye")];
    BaseStringEntries();
    PutPairsSnoc(Empty(), [], ps[0]);
    PutPairsSnoc(Empty(), [ps[0]], ps[1]);
    assert [ps[0]] + [ps[1]] == ps;
  }

  lemma BaseStringEntries()
    ensures StringEntries(BaseEls) == [("hello", "Hello"), ("bye", "Bye")]
  {
    ScenarioNames();
    assert KeptString(BaseEls[0]) && KeptString(BaseEls[1]) && !KeptString(BaseEls[2]);
    assert BaseEls[..0] == [];
    StringEntriesSnoc(BaseEls, 0);
    StringEntriesSnoc(BaseEls, 1);
    StringEntriesSnoc(BaseEls, 2);
    assert BaseEls[..3] == BaseEls;
  }

  /** The German file reads as `hello = Hallo`. */
  lemma GermanEntries()
    ensures PutPairs(Empty(), StringEntries(GermanEls)) == GermanMap()
  {
    ScenarioNames();
    assert KeptString(GermanEls[0]);
    assert GermanEls[..0] == [];
    StringEntriesSnoc(GermanEls, 0);
    assert GermanEls[..1] == GermanEls;
    PutPairsSnoc(Empty(), [], ("hello", "Hallo"));
  }

  /** A tree holding the scenario's files: the base file, the German file,
      and no French file yet. */
  predicate ScenarioTree(t: Tree<Document>) {
    && t.Valid()
    && BaseFile(Res) in t.files && t.files[BaseFile(Res)] == Resources(BaseEls)
    && TargetFile(Res, "de") in t.files && t.files[TargetFile(Res, "de")] == Resources(GermanEls)
    && !t.Exists(TargetFile(Res, "fr"))
  }

  /** The run on the scenario is the two language steps, German first. */
  lemma ScenarioSteps(t: Tree<Document>, deepl: string -> Provider)
    requires ScenarioTree(t)
    ensures Translation(t, Config(Res, "deepl", None, "en", ["de", "fr"], true), Some(Tagging), deepl)
         == LangStep(LangStep(t, Res, BaseMap(), Tagging, "en", "de"), Res, BaseMap(), Tagging, "en", "fr")
  {
    var cfg := Config(Res, "deepl", None, "en", ["de", "fr"], true);
    ScenarioBase(t, cfg);
    TranslationRuns(t, cfg, Some(Tagging), deepl);
    RunTwoLangs(t, Res, BaseMap(), Tagging, "en", "de", "fr");
  }

  /** The scenario passes the early exits with the base map and both languages. */
  lemma ScenarioBase(t: Tree<Document>, cfg: Config)
    requires ScenarioTree(t) && cfg == Config(Res, "deepl", None, "en", ["de", "fr"], true)
    ensures TargetLanguages(t, cfg) == ["de", "fr"] && t.Exists(BaseFile(cfg.res))
    ensures ReadStrings(t, BaseFile(cfg.res)) == BaseMap() && BaseMap().values != map[]
  {
    BaseEntries();
    assert "hello" in BaseMap().values;
  }

  lemma RunTwoLangs(t: Tree<Document>, res: Path, base: LinkedMap<string>, p: Provider, source: string,
                    a: string, b: string)
    requires t.Valid() && base.Valid()
    ensures RunLangs(t, res, base, p, source, [a, b])
         == LangStep(LangStep(t, res, base, p, source, a), res, base, p, source, b)
  {
    assert [a, b][..1] == [a];
    assert [a][..0] == [];
    assert RunLangs(t, res, base, p, source, [a]) == LangStep(t, res, base, p, source, a);
    assert RunLangs(t, res, base, p, source, [a, b])
        == LangStep(RunLangs(t, res, base, p, source, [a]), res, base, p, source, b);
  }

  /** Past the early exits, the run is the language loop over the base
      map with the chosen provider. */
  lemma TranslationRuns(t: Tree<Document>, cfg: Config, override: Option<Provider>, deepl: string -> Provider)
    requires t.Valid() && override.Some?
    requires TargetLanguages(t, cfg) != [] && t.Exists(BaseFile(cfg.res))
    requires ReadStrings(t, BaseFile(cfg.res)).values != map[]
    ensures Translation(t, cfg, override, deepl)
         == RunLangs(t, cfg.res, ReadStrings(t, BaseFile(cfg.res)), override.value, cfg.sourceLanguage,
                     TargetLanguages(t, cfg))
  {
  }

  /** Only `bye` is missing from the German file. */
  lemma GermanMissing()
    ensures StringsXmlTranslator.MissingKeys(BaseMap(), GermanMap()) == ["bye"]
    ensures BaseTexts(BaseMap(), ["bye"]) == ["Bye"]
  {
    assert ["hello", "bye"][1..] == ["bye"];
    assert StringsXmlTranslator.Missing(["bye"], GermanMap()) == ["bye"];
  }

  /** Both keys are missing from an absent French file. */
  lemma FrenchMissing()
    ensures StringsXmlTranslator.MissingKeys(BaseMap(), Empty()) == ["hello", "bye"]
    ensures BaseTexts(BaseMap(), ["hello", "bye"]) == ["Hello", "Bye"]
  {
    assert ["hello", "bye"][1..] == ["bye"];
    assert StringsXmlTranslator.Missing(["bye"], Empty()) == ["bye"];
  }

  /** German: `hello` keeps its existing text and only `bye` is sent. */
  lemma ScenarioGerman(t: Tree<Document>)
    requires t.Valid() && TargetFile(Res, "de") in t.files && t.files[TargetFile(Res, "de")] == Resources(GermanEls)
    ensures ReadStrings(LangStep(t, Res, BaseMap(), Tagging, "en", "de"), TargetFile(Res, "de")).values
         == map["hello" := "Hallo", "bye" := "Bye [de]"]
  {
    GermanFacts(t);
    LangStepWrites(t, Res, BaseMap(), Tagging, "en", "de", GermanMap(), ["bye"], ["Bye [de]"]);
    GermanMerge();
  }

  /** What the German step reads, sends and gets back. */
  lemma GermanFacts(t: Tree<Document>)
    requires t.Valid() && TargetFile(Res, "de") in t.files && t.files[TargetFile(Res, "de")] == Resources(GermanEls)
    ensures Existing(t, TargetFile(Res, "de")) == GermanMap()
    ensures StringsXmlTranslator.MissingKeys(BaseMap(), GermanMap()) == ["bye"]
    ensures Tagging(BaseTexts(BaseMap(), ["bye"]), "en", "de") == Success(["Bye [de]"])
    ensures forall k | k in BaseMap().values :: !IsBlank(k)
  {
    GermanExisting(t);
    GermanMissing();
    ScenarioAnswers();
    BaseNotBlank();
  }

  lemma GermanExisting(t: Tree<Document>)
    requires t.Valid() && TargetFile(Res, "de") in t.files && t.files[TargetFile(Res, "de")] == Resources(GermanEls)
    ensures Existing(t, TargetFile(Res, "de")) == GermanMap()
  {
    GermanEntries();
  }

  lemma BaseNotBlank()
    ensures forall k | k in BaseMap().values :: !IsBlank(k)
  {
    ScenarioNames();
  }

  lemma GermanMerge()
    ensures Merged(GermanMap(), ["bye"], ["Bye [de]"]).values == map["hello" := "Hallo", "bye" := "Bye [de]"]
  {
    var m := Merged(GermanMap(), ["bye"], ["Bye [de]"]).values;
    assert "bye" != "hello" by { assert |"bye"| != |"hello"|; }
    forall k ensures k in m <==> k == "hello" || k == "bye" {
      MergedKeepsExisting(GermanMap(), ["bye"], ["Bye [de]"], k);
    }
    MergedKeepsExisting(GermanMap(), ["bye"], ["Bye [de]"], "hello");
  }

  /** French: no file yet, so both keys are sent and written. */
  lemma ScenarioFrench(t: Tree<Document>)
    requires t.Valid() && !t.Exists(TargetFile(Res, "fr"))
    ensures ReadStrings(LangStep(t, Res, BaseMap(), Tagging, "en", "fr"), TargetFile(Res, "fr")).values
         == map["hello" := "Hello [fr]", "bye" := "Bye [fr]"]
  {
    FrenchFacts(t);
    LangStepWrites(t, Res, BaseMap(), Tagging, "en", "fr", Empty(), ["hello", "bye"], ["Hello [fr]", "Bye [fr]"]);
    FrenchMerge();
  }

  /** What the French step reads, sends and gets back. */
  lemma FrenchFacts(t: Tree<Document>)
    requires t.Valid() && !t.Exists(TargetFile(Res, "fr"))
    ensures Existing(t, TargetFile(Res, "fr")) == Empty()
    ensures StringsXmlTranslator.MissingKeys(BaseMap(), Empty()) == ["hello", "bye"]
    ensures Tagging(BaseTexts(BaseMap(), ["hello", "bye"]), "en", "fr") == Success(["Hello [fr]", "Bye [fr]"])
    ensures forall k | k in BaseMap().values :: !IsBlank(k)
  {
    FrenchMissing();
    ScenarioAnswers();
    BaseNotBlank();
  }

  lemma FrenchMerge()
    ensures Merged(Empty(), ["hello", "bye"], ["Hello [fr]", "Bye [fr]"]).values
         == map["hello" := "Hello [fr]", "bye" := "Bye [fr]"]
  {
    assert "hello" != "bye" by { assert |"hello"| != |"bye"|; }
    MergedTwo(Empty(), "hello", "bye", "Hello [fr]", "Bye [fr]");
  }

  /** Two new keys merged into `existing` are added with their answers. */
  lemma MergedTwo(existing: LinkedMap<string>, k1: string, k2: string, v1: string, v2: string)
    requires existing.Valid() && k1 != k2 && k1 !in existing.values && k2 !in existing.values
    ensures Merged(existing, [k1, k2], [v1, v2]).values == existing.values[k1 := v1][k2 := v2]
  {
    var m := Merged(existing, [k1, k2], [v1, v2]).values;
    forall k ensures (k in m <==> k in existing.values || k == k1 || k == k2)
                  && (k in existing.values ==> m[k] == existing.values[k]) {
      MergedTwoAt(existing, k1, k2, v1, v2, k);
    }
    MergedTwoAt(existing, k1, k2, v1, v2, k1);
    TwoAdded(m, existing.values, k1, k2, v1, v2);
  }

  lemma MergedTwoAt(existing: LinkedMap<string>, k1: string, k2: string, v1: string, v2: string, k: string)
    requires existing.Valid() && k1 != k2 && k1 !in existing.values && k2 !in existing.values
    ensures var m := Merged(existing, [k1, k2], [v1, v2]).values;
            && (k in m <==> k in existing.values || k == k1 || k == k2)
            && (k in existing.values ==> k in m && m[k] == existing.values[k])
            && k1 in m && m[k1] == v1 && k2 in m && m[k2] == v2
  {
    var ks, vs := [k1, k2], [v1, v2];
    assert ks[..2] == ks;
    MergedKeepsExisting(existing, ks, vs, k);
    MergedKeepsExisting(existing, ks, vs, k1);
    MergedKeepsExisting(existing, ks, vs, k2);
  }

  lemma TwoAdded(m: map<string, string>, e: map<string, string>, k1: string, k2: string, v1: string, v2: string)
    requires forall k :: (k in m <==> k in e || k == k1 || k == k2) && (k in e ==> m[k] == e[k])
    requires k1 !in e && k2 !in e && m[k1] == v1 && m[k2] == v2
    ensures m == e[k1 := v1][k2 := v2]
  {
    SameMaps(m, e[k1 := v1][k2 := v2]);
  }

  /** The task run on the scenario with targets `de` and `fr` and the stub
      provider: German keeps `Hallo` and gains `Bye [de]`, French gets both
      keys tagged `[fr]`; `skip_me` is in neither. */
  lemma ScenarioTranslated(t: Tree<Document>, deepl: string -> Provider, t': Tree<Document>)
    requires ScenarioTree(t)
    requires t' == Translation(t, Config(Res, "deepl", None, "en", ["de", "fr"], true), Some(Tagging), deepl)
    ensures ReadStrings(t', TargetFile(Res, "de")).values == map["hello" := "Hallo", "bye" := "Bye [de]"]
    ensures ReadStrings(t', TargetFile(Res, "fr")).values == map["hello" := "Hello [fr]", "bye" := "Bye [fr]"]
  {
    var de, fr := TargetFile(Res, "de"), TargetFile(Res, "fr");
    var t1 := LangStep(t, Res, BaseMap(), Tagging, "en", "de");
    ScenarioSteps(t, deepl);
    assert t' == LangStep(t1, Res, BaseMap(), Tagging, "en", "fr");
    ScenarioPaths();
    ScenarioGerman(t);
    LangStepFrame(t, Res, BaseMap(), Tagging, "en", "de", fr);
    assert !t1.Exists(fr);
    ScenarioFrench(t1);
    LangStepFrame(t1, Res, BaseMap(), Tagging, "en", "fr", de);
    ReadStringsFrame(t1, t', de);
  }

  /** What a file reads as depends only on that file. */
  lemma ReadStringsFrame(t: Tree<Document>, t': Tree<Document>, file: Path)
    requires file in t.files <==> file in t'.files
    requires file in t.files ==> t'.files[file] == t.files[file]
    ensures ReadStrings(t', file) == ReadStrings(t, file)
  {
  }
}
