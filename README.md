# Auto-translation Gradle plugin, modelled in Dafny

This project models the translation core of the auto-translation Gradle
plugin for Android apps. It covers:

- **`strings.xml` handling** (`StringsXml`, `Placeholders`):
  - `StringsXmlHelper.parse` reads `<string>` elements and `<plurals>` items (as `name[quantity]` keys) into an insertion-ordered map;
  - `write` emits them sorted by name, with plural items in CLDR order;
  - printf placeholders (`%1$s`) are masked to `<s1/>` before translation and unmasked afterwards.
- **Locales** (`Locales`): `toIsoLocale`, which decodes a folder qualifier such as `zh-rCN` against the JDK's locale catalogue, and `androidCode`.
- **Providers** (`TranslationServices`, `DeepL`, `Google`, `TestService`, `LegacyServices`):
  - the `TranslationService` base classes of both packages;
  - DeepL's language-code mapping and option defaults;
  - Google's chunking into requests of at most 128 texts;
  - the test stub.
- **The strings.xml translator** (`StringsXmlTranslator`):
  - target resolution, explicit or autodetected with exclusions;
  - the per-locale step: read existing, find missing keys, mask, translate, unmask, merge, write.
- **Fastlane metadata translation**:
  - the newer translator (`Fastlane`) translates only missing `.txt` files, and `resolveTargets` reports those files;
  - the older translator (`LegacyFastlane`) rewrites every file.
- **The original `AutoTranslateTask`** (`LegacyTask`), with its own parser, writer, language detection and provider choice.

## Model design

- The file system is a snapshot value, `FileTrees.Tree`:
  - directories in listing order;
  - files with their contents;
  - the walk order.
- Each algorithm's loops are imperative methods on a `FileTrees.FileSystem` object that holds the current snapshot.
  - Every method is proved equal to a pure function of the old snapshot.
  - The properties are proved about that function.
- An XML document is its sequence of `<string>`/`<plurals>` elements, or `Malformed`.
- A `LinkedHashMap` is a key list plus a map (`LinkedMaps.LinkedMap`).
- A provider is a function that returns either the answers or the exception's message.
- The JDK's `Locale.getAvailableLocales()` is a parameter named `catalog`. The default `isoCode` is also a parameter, because it is not part of this model.

Where the code and its documentation differ, the model follows the code:

- **Autodetection does not skip the source locale.**
  - The strings.xml translator autodetects every `values-*` folder that is not excluded. A `values-en` folder is therefore a target even when English is the source.
  - A target's output path is re-derived from the decoded locale (`values-<androidCode>`), not from the folder it was found in.
- **Fastlane source folder.** The Fastlane source folder is the first folder that decodes to the source locale, not a unique one.
- **Zipping answers.** Answers are paired with missing keys by `zip`, which stops at the shorter list. In the original `AutoTranslateTask` and in the strings.xml translator, extra answers are dropped silently, and keys without an answer are skipped silently.
- **Too many answers in Fastlane.**
  - In the newer Fastlane translator, more answers than missing files make `missing[index]` throw after the earlier writes. The model returns `TooManyResults`.
  - The older translator likewise indexes past the end of its outputs.
- **The original `AutoTranslateTask`:**
  - reads only `<string>` elements;
  - sends base texts unmasked;
  - takes languages as raw qualifiers cut before the first '-';
  - writes a language's file whenever anything was missing;
  - drops a blank key on the way back (`LegacyTask.BlankKeyIsLost`).

## Model

| member | source | states |
|---|---|---|
| `Text.Upper` | src/main/kotlin/io/github/philkes/auto/translation/plugin/provider/deepl/DeepLTranslationService.kt:49 | upper-cases each ASCII lower-case letter and keeps every other character and the length |
| `Text.Lower` | src/main/kotlin/io/github/philkes/auto/translation/plugin/util/MiscExtensions.kt:13 | lower-cases each ASCII upper-case letter, as the `Locale` constructor normalises a language, keeping the length |
| `Text.SplitOnSeparators` | src/main/kotlin/io/github/philkes/auto/translation/plugin/util/MiscExtensions.kt:8 | splitting on '-' and '_' yields at least one piece and no piece holds a separator |
| `Text.SplitAtSeparator` | src/main/kotlin/io/github/philkes/auto/translation/plugin/util/MiscExtensions.kt:8 | a separator cuts the text into the part before it and the pieces of the rest, empty pieces included |
| `Text.RemoveChar` | src/main/kotlin/io/github/philkes/auto/translation/plugin/util/MiscExtensions.kt:11 | the result holds no 'r', is no longer than the input, and equals the input when there was no 'r' to remove |
| `Text.SubstringBefore` | src/main/kotlin/io/github/philkes/auto/translation/plugin/provider/deepl/DeepLTranslationService.kt:51 | the result is a prefix without the separator; it is the whole text when the separator is absent, else the separator follows it |
| `Text.Extension` | src/main/kotlin/io/github/philkes/auto/translation/plugin/task/FastlaneTranslator.kt:185 | the extension holds no '.', is empty for a name without '.', and otherwise is exactly what follows the last '.' |
| `Ordering.BelowTotal` | src/main/kotlin/io/github/philkes/android/auto/translation/AutoTranslateTask.kt:160 | the code-point string order relates every pair of strings |
| `Ordering.BelowTransitive` | src/main/kotlin/io/github/philkes/android/auto/translation/AutoTranslateTask.kt:160 | the code-point string order is transitive |
| `Ordering.BelowAntisymmetric` | src/main/kotlin/io/github/philkes/android/auto/translation/AutoTranslateTask.kt:160 | two strings each below the other are equal |
| `Ordering.Sort` | src/main/kotlin/io/github/philkes/android/auto/translation/AutoTranslateTask.kt:160 | `sorted()` returns a permutation of its input ordered by code point |
| `Ordering.SortedUnique` | src/main/kotlin/io/github/philkes/android/auto/translation/AutoTranslateTask.kt:160 | a sorted list is fixed by its elements, so the sort result does not depend on listing order |
| `Ordering.SortDistinct` | src/main/kotlin/io/github/philkes/android/auto/translation/task/StringsXmlTranslator.kt:94 | sorting a duplicate-free list gives a strictly ascending list with the same elements |
| `Ordering.Dedup` | src/main/kotlin/io/github/philkes/android/auto/translation/AutoTranslateTask.kt:147-155 | the `LinkedHashSet` of a list is duplicate-free and holds exactly the list's elements |
| `Ordering.SortedSet` | src/main/kotlin/io/github/philkes/android/auto/translation/util/StringsXmlHelper.kt:117 | `toSortedSet()` is strictly ascending by code point and holds exactly the input's elements |
| `Ordering.StrictlySortedUnique` | src/main/kotlin/io/github/philkes/android/auto/translation/util/StringsXmlHelper.kt:117 | two strictly ascending lists with the same elements are equal |
| `Ordering.Unexcluded` | src/main/kotlin/io/github/philkes/android/auto/translation/task/StringsXmlTranslator.kt:118 | `filterNot { it in exclude }` keeps exactly the codes not excluded, and keeps them apart |
| `LinkedMaps.Empty` | src/main/kotlin/io/github/philkes/android/auto/translation/util/StringsXmlHelper.kt:28 | a new `LinkedHashMap` has no key |
| `LinkedMaps.Put` | src/main/kotlin/io/github/philkes/android/auto/translation/util/StringsXmlHelper.kt:41 | `map[k] = v` maps `k` to `v`, leaves other keys alone, and appends `k` to the key order only when it is new |
| `LinkedMaps.PutEach` | src/main/kotlin/io/github/philkes/android/auto/translation/task/StringsXmlTranslator.kt:74-77 | after `putAll` and the additions, a key is present exactly when it was before or is added, and an added key carries its new value |
| `LinkedMaps.Zip` | src/main/kotlin/io/github/philkes/android/auto/translation/task/StringsXmlTranslator.kt:72 | `zip(...).toMap()` pairs keys and values position by position, up to the shorter list |
| `LinkedMaps.PutPairsAppend` | src/main/kotlin/io/github/philkes/android/auto/translation/util/StringsXmlHelper.kt:31-66 | assigning two runs one after the other is assigning their concatenation |
| `LinkedMaps.PutPairsKeys` | src/main/kotlin/io/github/philkes/android/auto/translation/util/StringsXmlHelper.kt:31-66 | after the assignments a key is present exactly when it was before or some assignment names it |
| `LinkedMaps.PutPairsAgree` | src/main/kotlin/io/github/philkes/android/auto/translation/util/StringsXmlHelper.kt:31-66 | assignments that all agree with a map leave only values that agree with it |
| `FileTrees.Tree.Write` | src/main/kotlin/io/github/philkes/auto/translation/plugin/task/FastlaneTranslator.kt:172 | writing a file replaces that one file's content and changes nothing else |
| `FileTrees.SubdirNames` | src/main/kotlin/io/github/philkes/auto/translation/plugin/task/FastlaneTranslator.kt:35 | the listed names are exactly the sub-directories of the folder, each once |
| `FileTrees.TxtFilesUnder` | src/main/kotlin/io/github/philkes/auto/translation/plugin/task/FastlaneTranslator.kt:184-186 | the walk yields exactly the `.txt` files strictly under the folder, each once |
| `FileTrees.FileSystem.WriteFile` | src/main/kotlin/io/github/philkes/auto/translation/plugin/task/FastlaneTranslator.kt:172 | the file system afterwards is the old one with that file written |
| `Locales.FirstMatch` | src/main/kotlin/io/github/philkes/auto/translation/plugin/util/MiscExtensions.kt:14-18 | the index of the first catalogue entry with the same language, country and variant, none before it |
| `Locales.ToIsoLocale` | src/main/kotlin/io/github/philkes/auto/translation/plugin/util/MiscExtensions.kt:5-19 | a blank code gives none; a result is the first catalogue entry whose language, country and variant are those parsed from the code; none means no entry matches |
| `Locales.AndroidCodeRoundTrip` | src/main/kotlin/io/github/philkes/auto/translation/plugin/util/MiscExtensions.kt:5-36 | decoding the Android code of a catalogue locale finds a locale with the same language and country |
| `Locales.QualifierOfAndroidCode` | src/main/kotlin/io/github/philkes/auto/translation/plugin/util/MiscExtensions.kt:5-36 | parsing an Android code rebuilds the language, country and empty variant it was made from |
| `Locales.QualifierOfLanguageOnly` | src/main/kotlin/io/github/philkes/auto/translation/plugin/util/MiscExtensions.kt:8-13 | `de` parses to German with no country |
| `Locales.QualifierWithRegionMarker` | src/main/kotlin/io/github/philkes/auto/translation/plugin/util/MiscExtensions.kt:11 | `zh-rCN` parses to Chinese in China: the `r` marker is removed |
| `Locales.OverlongQualifier` | src/main/kotlin/io/github/philkes/auto/translation/plugin/util/MiscExtensions.kt:8-12 | segments after the third are ignored, and the country is upper-cased |
| `Placeholders.DigitRun` | src/main/kotlin/io/github/philkes/android/auto/translation/util/StringsXmlHelper.kt:161 | greedy `\d+` takes the longest run of ASCII digits |
| `Placeholders.TokenAt` | src/main/kotlin/io/github/philkes/android/auto/translation/util/StringsXmlHelper.kt:160-174 | a match at the start of the text is a valid placeholder written in that syntax there |
| `Placeholders.TokenAtComplete` | src/main/kotlin/io/github/philkes/android/auto/translation/util/StringsXmlHelper.kt:160-174 | every placeholder written in a syntax at the start of the text is matched, with its own letter and number |
| `Placeholders.RewriteRoundTrip` | src/main/kotlin/io/github/philkes/android/auto/translation/util/StringsXmlHelper.kt:160-174 | rewriting into the other syntax and back restores the text, when the text held nothing in the other syntax |
| `Placeholders.RewriteLeavesNoSource` | src/main/kotlin/io/github/philkes/android/auto/translation/util/StringsXmlHelper.kt:160-174 | a rewrite leaves no match of the syntax it replaced |
| `Placeholders.RewriteWithoutTokens` | src/main/kotlin/io/github/philkes/android/auto/translation/util/StringsXmlHelper.kt:160-174 | text without a match is returned unchanged |
| `Placeholders.MaskRoundTrip` | src/main/kotlin/io/github/philkes/android/auto/translation/util/StringsXmlHelper.kt:160-174 | unmasking a masked text restores it when it held no `<x9/>` marker |
| `Placeholders.UnmaskRoundTrip` | src/main/kotlin/io/github/philkes/android/auto/translation/util/StringsXmlHelper.kt:160-174 | masking an unmasked text restores it when it held no `%9$x` placeholder |
| `Placeholders.MaskHidesPlaceholders` | src/main/kotlin/io/github/philkes/android/auto/translation/util/StringsXmlHelper.kt:160-166 | a masked text holds no `%9$x` placeholder |
| `Placeholders.UnmaskRemovesMarkers` | src/main/kotlin/io/github/philkes/android/auto/translation/util/StringsXmlHelper.kt:168-174 | an unmasked text holds no `<x9/>` marker |
| `Placeholders.MaskWithoutPlaceholders` | src/main/kotlin/io/github/philkes/android/auto/translation/util/StringsXmlHelper.kt:160-166 | text without placeholders is sent as it is |
| `Placeholders.UnmaskWithoutMarkers` | src/main/kotlin/io/github/philkes/android/auto/translation/util/StringsXmlHelper.kt:168-174 | text without markers comes back as it is |
| `Placeholders.MaskOnePlaceholder` | src/main/kotlin/io/github/philkes/android/auto/translation/util/StringsXmlHelper.kt:160-166 | `%1$s` becomes `<s1/>` |
| `StringsXml.ParseFile` | src/main/kotlin/io/github/philkes/android/auto/translation/util/StringsXmlHelper.kt:23-76 | a missing or malformed file raises an error naming it; otherwise the strings are read, then the plural items |
| `StringsXml.Parse` | src/main/kotlin/io/github/philkes/android/auto/translation/util/StringsXmlHelper.kt:23-76 | `parse` on the file system gives that result |
| `StringsXml.ParseElements` | src/main/kotlin/io/github/philkes/android/auto/translation/util/StringsXmlHelper.kt:31-66 | the two loops give exactly the parsed map |
| `StringsXml.PutStrings` | src/main/kotlin/io/github/philkes/android/auto/translation/util/StringsXmlHelper.kt:31-42 | the `<string>` loop assigns the kept strings in order |
| `StringsXml.PutPlurals` | src/main/kotlin/io/github/philkes/android/auto/translation/util/StringsXmlHelper.kt:45-66 | the `<plurals>` loop assigns every kept item under `name[quantity]` in order |
| `StringsXml.PutItems` | src/main/kotlin/io/github/philkes/android/auto/translation/util/StringsXmlHelper.kt:54-64 | the `<item>` loop skips blank quantities and assigns the others |
| `StringsXml.StringEntriesContent` | src/main/kotlin/io/github/philkes/android/auto/translation/util/StringsXmlHelper.kt:31-42 | a pair is assigned exactly when a non-blank, translatable `<string>` carries it |
| `StringsXml.ItemEntriesContent` | src/main/kotlin/io/github/philkes/android/auto/translation/util/StringsXmlHelper.kt:54-64 | an item pair is assigned exactly when an item with a non-blank quantity carries it |
| `StringsXml.PluralEntriesContent` | src/main/kotlin/io/github/philkes/android/auto/translation/util/StringsXmlHelper.kt:45-66 | a plural pair is assigned exactly when a kept `<plurals>` holds an item for it |
| `StringsXml.ParsedKeys` | src/main/kotlin/io/github/philkes/android/auto/translation/util/StringsXmlHelper.kt:23-76 | a key is parsed exactly when a kept `<string>` has that name or a kept item gives that `name[quantity]` |
| `StringsXml.PluralMatch` | src/main/kotlin/io/github/philkes/android/auto/translation/util/StringsXmlHelper.kt:91-105 | a match splits a key into a non-empty base without line terminators and one of the six quantities |
| `StringsXml.PluralMatchComplete` | src/main/kotlin/io/github/philkes/android/auto/translation/util/StringsXmlHelper.kt:91 | every `base[quantity]` key is matched, with its own base and quantity |
| `StringsXml.IndexOf` | src/main/kotlin/io/github/philkes/android/auto/translation/util/StringsXmlHelper.kt:110-111 | `indexOf` returns a position holding the quantity, or -1 exactly when it is absent |
| `StringsXml.QuantityItemsOrder` | src/main/kotlin/io/github/philkes/android/auto/translation/util/StringsXmlHelper.kt:108-114 | the items of one `<plurals>` follow zero, one, two, few, many, other and are exactly the group's entries |
| `StringsXml.Partitioned` | src/main/kotlin/io/github/philkes/android/auto/translation/util/StringsXmlHelper.kt:95-105 | the two maps are well formed and every plural group holds only the six quantities |
| `StringsXml.PartitionedNormal` | src/main/kotlin/io/github/philkes/android/auto/translation/util/StringsXmlHelper.kt:95-105 | a key that is no plural item is a plain string with its value |
| `StringsXml.PartitionedBases` | src/main/kotlin/io/github/philkes/android/auto/translation/util/StringsXmlHelper.kt:95-105 | there is a plural group exactly for each base some item key names |
| `StringsXml.PartitionedGroup` | src/main/kotlin/io/github/philkes/android/auto/translation/util/StringsXmlHelper.kt:95-105 | a group holds quantity `q` exactly when the entries hold `base[q]`, with that value |
| `StringsXml.EmitContent` | src/main/kotlin/io/github/philkes/android/auto/translation/util/StringsXmlHelper.kt:118-138 | the emitted elements are exactly those of the listed names |
| `StringsXml.EmitOrder` | src/main/kotlin/io/github/philkes/android/auto/translation/util/StringsXmlHelper.kt:117-138 | emitted names ascend, and a name's `<string>` comes right before its `<plurals>` |
| `StringsXml.WrittenAttributes` | src/main/kotlin/io/github/philkes/android/auto/translation/util/StringsXmlHelper.kt:118-138 | nothing is written with a `translatable` attribute |
| `StringsXml.WrittenStrings` | src/main/kotlin/io/github/philkes/android/auto/translation/util/StringsXmlHelper.kt:118-125 | a `<string>` is written exactly for each entry that is not a plural item, with its value |
| `StringsXml.WrittenPlurals` | src/main/kotlin/io/github/philkes/android/auto/translation/util/StringsXmlHelper.kt:126-138 | an item is written exactly for each plural entry, under its base and with its value |
| `StringsXml.WrittenPluralsSound` | src/main/kotlin/io/github/philkes/android/auto/translation/util/StringsXmlHelper.kt:126-138 | each written item comes from the entry `base[quantity]` |
| `StringsXml.WrittenPluralsComplete` | src/main/kotlin/io/github/philkes/android/auto/translation/util/StringsXmlHelper.kt:126-138 | each plural entry is written as an item of its base |
| `StringsXml.WrittenOrder` | src/main/kotlin/io/github/philkes/android/auto/translation/util/StringsXmlHelper.kt:117-138 | the written document is in ascending name order |
| `StringsXml.WrittenQuantityOrder` | src/main/kotlin/io/github/philkes/android/auto/translation/util/StringsXmlHelper.kt:130 | inside every written `<plurals>` the quantities follow the preferred order |
| `StringsXml.ReadBackAgrees` | src/main/kotlin/io/github/philkes/android/auto/translation/util/StringsXmlHelper.kt:23-158 | every assignment made when reading the written file agrees with the entries |
| `StringsXml.ReadBackCovers` | src/main/kotlin/io/github/philkes/android/auto/translation/util/StringsXmlHelper.kt:23-158 | every entry is assigned when the written file is read |
| `StringsXml.WriteParseRoundTrip` | src/main/kotlin/io/github/philkes/android/auto/translation/util/StringsXmlHelper.kt:23-158 | parsing what `write` produced gives the same key-to-text map, when no name is blank |
| `StringsXml.ReadBackComplete` | src/main/kotlin/io/github/philkes/android/auto/translation/util/StringsXmlHelper.kt:23-158 | every entry is parsed back |
| `StringsXml.ReadBackSound` | src/main/kotlin/io/github/philkes/android/auto/translation/util/StringsXmlHelper.kt:23-158 | every parsed-back key is an entry, with its text |
| `StringsXml.ReadBackKey` | src/main/kotlin/io/github/philkes/android/auto/translation/util/StringsXmlHelper.kt:23-158 | a given entry's key is parsed back |
| `StringsXml.BuildDocument` | src/main/kotlin/io/github/philkes/android/auto/translation/util/StringsXmlHelper.kt:83-138 | the built document is the written element sequence |
| `StringsXml.PartitionEntries` | src/main/kotlin/io/github/philkes/android/auto/translation/util/StringsXmlHelper.kt:95-105 | the partition loop gives the partition of the sorted entries |
| `StringsXml.EmitAll` | src/main/kotlin/io/github/philkes/android/auto/translation/util/StringsXmlHelper.kt:117-138 | the emission loop gives each name's `<string>` then `<plurals>` |
| `StringsXml.Write` | src/main/kotlin/io/github/philkes/android/auto/translation/util/StringsXmlHelper.kt:83-158 | the target file is replaced by the written document and nothing else changes |
| `TranslationServices.Forwarded` | src/main/kotlin/io/github/philkes/auto/translation/plugin/provider/TranslationService.kt:8-20 | the backend gets the texts, the format and both locales converted by the hook, source and target in their roles |
| `TranslationServices.TranslateBatch` | src/main/kotlin/io/github/philkes/auto/translation/plugin/provider/TranslationService.kt:8-20 | the public call returns the backend's answer to the forwarded call |
| `TranslationServices.DefaultIgnoresRole` | src/main/kotlin/io/github/philkes/auto/translation/plugin/provider/TranslationService.kt:31-33 | the default hook gives the ISO code in either role |
| `TranslationServices.DefaultHookForwardsIsoCodes` | src/main/kotlin/io/github/philkes/auto/translation/plugin/provider/TranslationService.kt:8-33 | with the default hook both locales reach the backend as ISO codes |
| `DeepL.ApiString` | src/main/kotlin/io/github/philkes/auto/translation/plugin/provider/deepl/DeepLTranslationService.kt:44-52 | only a target code can contain '-'; the two Chinese locales map to `ZH-HANS` and `ZH-HANT`; others to the upper-cased ISO code |
| `DeepL.SourceRoleIsPrefix` | src/main/kotlin/io/github/philkes/auto/translation/plugin/provider/deepl/DeepLTranslationService.kt:44-52 | the source code is the target code cut before its first '-' |
| `DeepL.SimplifiedChineseSourceIsZh` | src/main/kotlin/io/github/philkes/auto/translation/plugin/provider/deepl/DeepLTranslationService.kt:44-52 | Simplified Chinese as the source is sent as `ZH` |
| `DeepL.TraditionalChineseSourceIsZh` | src/main/kotlin/io/github/philkes/auto/translation/plugin/provider/deepl/DeepLTranslationService.kt:44-52 | Traditional Chinese as the source is sent as `ZH` |
| `DeepL.ConfiguredOptions` | src/main/kotlin/io/github/philkes/auto/translation/plugin/provider/deepl/DeepLTranslationService.kt:17-26 | a blank `tagHandling` becomes `xml`, anything else is kept, and the other options are kept |
| `DeepL.TranslateBatchCallsClient` | src/main/kotlin/io/github/philkes/auto/translation/plugin/provider/deepl/DeepLTranslationService.kt:28-38 | a batch is the client's answer for the texts, the cut source code and the full target code, whatever the format |
| `Google.FormatName` | src/main/kotlin/io/github/philkes/auto/translation/plugin/provider/google/GoogleTranslationService.kt:25-30 | plain text is named `text` and HTML `html` |
| `Google.CallOptions` | src/main/kotlin/io/github/philkes/auto/translation/plugin/provider/google/GoogleTranslationService.kt:21-34 | the options are source, target and format, plus the model only when one is set and not blank |
| `Google.Chunked` | src/main/kotlin/io/github/philkes/auto/translation/plugin/provider/google/GoogleTranslationService.kt:41 | the pieces are non-empty, all but the last hold exactly 128 texts, and together they are the input |
| `Google.TranslateBatch` | src/main/kotlin/io/github/philkes/auto/translation/plugin/provider/google/GoogleTranslationService.kt:15-46 | the loop's result is the chunked batch |
| `Google.RunChunksFailed` | src/main/kotlin/io/github/philkes/auto/translation/plugin/provider/google/GoogleTranslationService.kt:41-44 | once a request fails, the batch fails with that error |
| `Google.RunChunksInOrder` | src/main/kotlin/io/github/philkes/auto/translation/plugin/provider/google/GoogleTranslationService.kt:40-45 | when each request translates text by text, the answers come back in input order |
| `Google.BatchInOrder` | src/main/kotlin/io/github/philkes/auto/translation/plugin/provider/google/GoogleTranslationService.kt:35-45 | every text comes back translated, in order, however many requests it takes |
| `Google.RunChunksLength` | src/main/kotlin/io/github/philkes/auto/translation/plugin/provider/google/GoogleTranslationService.kt:40-45 | with one answer per text per request, a successful batch has one answer per text |
| `TestService.Tagged` | src/main/kotlin/io/github/philkes/auto/translation/plugin/provider/TestTranslationService.kt:11 | each text gets ` [CODE]` with the target code upper-cased |
| `TestService.TaggedInverse` | src/main/kotlin/io/github/philkes/auto/translation/plugin/provider/TestTranslationService.kt:11 | removing the marker gives each input back |
| `TestService.StubTranslateBatch` | src/main/kotlin/io/github/philkes/auto/translation/plugin/provider/TestTranslationService.kt:6-12 | a batch is every text tagged with the target's upper-cased ISO code, whatever the source locale |
| `TestService.HelloAppExample` | src/test/kotlin/io/github/philkes/auto/translation/plugin/FastlaneTranslatorTest.kt:40-43 | with target ISO code `de_DE`, `Hello App` becomes `Hello App [DE_DE]` |
| `LegacyServices.ToApiString` | src/main/kotlin/io/github/philkes/android/auto/translation/provider/TranslationService.kt:20 | `toApiString` is the hook |
| `LegacyServices.TranslateBatchWithApiCodes` | src/main/kotlin/io/github/philkes/android/auto/translation/provider/TranslationService.kt:23-29 | both codes reach the backend unchanged |
| `LegacyServices.TranslateBatchViaApiCodes` | src/main/kotlin/io/github/philkes/android/auto/translation/provider/TranslationService.kt:31-41 | a batch on locales is a batch on the codes the hook gives |
| `LegacyServices.DefaultHookExamples` | src/main/kotlin/io/github/philkes/android/auto/translation/provider/TranslationService.kt:15-17 | the default hook is `Locale.toString()`: `de_DE`, and `de` without a country |
| `StringsXmlTranslator.Decoded` | src/main/kotlin/io/github/philkes/android/auto/translation/task/StringsXmlTranslator.kt:94-105 | the decoded locales are exactly those some code decodes to |
| `StringsXmlTranslator.LocalesFrom` | src/main/kotlin/io/github/philkes/android/auto/translation/task/StringsXmlTranslator.kt:93-105 | the codes are sorted and decoded; undecodable codes are dropped |
| `StringsXmlTranslator.Qualifiers` | src/main/kotlin/io/github/philkes/android/auto/translation/task/StringsXmlTranslator.kt:113-116 | the qualifiers are exactly those of the `values-*` folders |
| `StringsXmlTranslator.AutodetectCodes` | src/main/kotlin/io/github/philkes/android/auto/translation/task/StringsXmlTranslator.kt:112-118 | a code is detected exactly when its `values-<code>` folder exists and it is not excluded |
| `StringsXmlTranslator.ResolveTargets` | src/main/kotlin/io/github/philkes/android/auto/translation/task/StringsXmlTranslator.kt:87-125 | targets are distinct; with explicit codes they are those codes' locales, else the detected ones |
| `StringsXmlTranslator.ExplicitIgnoresExclusion` | src/main/kotlin/io/github/philkes/android/auto/translation/task/StringsXmlTranslator.kt:106-110 | explicit codes make the exclusion list and the folders irrelevant |
| `StringsXmlTranslator.AutodetectedTargets` | src/main/kotlin/io/github/philkes/android/auto/translation/task/StringsXmlTranslator.kt:112-124 | a locale is detected exactly when some non-excluded `values-<q>` folder's qualifier decodes to it |
| `StringsXmlTranslator.MissingKeys` | src/main/kotlin/io/github/philkes/android/auto/translation/task/StringsXmlTranslator.kt:48 | the missing keys are exactly the source keys the target lacks, each once |
| `StringsXmlTranslator.Missing` | src/main/kotlin/io/github/philkes/android/auto/translation/task/StringsXmlTranslator.kt:48 | filtering keeps exactly the keys absent from the target |
| `StringsXmlTranslator.MaskedTexts` | src/main/kotlin/io/github/philkes/android/auto/translation/task/StringsXmlTranslator.kt:56-59 | the i-th text sent is the masked source text of the i-th missing key |
| `StringsXmlTranslator.UnmaskedTexts` | src/main/kotlin/io/github/philkes/android/auto/translation/task/StringsXmlTranslator.kt:70 | the i-th answer is unmasked |
| `StringsXmlTranslator.MergedKeepsExisting` | src/main/kotlin/io/github/philkes/android/auto/translation/task/StringsXmlTranslator.kt:72-77 | the merge keeps existing entries, adds each missing key with its answer, and adds nothing else |
| `StringsXmlTranslator.LocaleStep` | src/main/kotlin/io/github/philkes/android/auto/translation/task/StringsXmlTranslator.kt:45-84 | a locale step ends with a well-formed tree or a parse error |
| `StringsXmlTranslator.NothingMissingNoCall` | src/main/kotlin/io/github/philkes/android/auto/translation/task/StringsXmlTranslator.kt:49-54 | with nothing missing the provider is not asked and nothing changes |
| `StringsXmlTranslator.ProviderFailureSkipsLocale` | src/main/kotlin/io/github/philkes/android/auto/translation/task/StringsXmlTranslator.kt:61-67 | a failing provider leaves the tree as it was and the run goes on |
| `StringsXmlTranslator.LocaleStepFrame` | src/main/kotlin/io/github/philkes/android/auto/translation/task/StringsXmlTranslator.kt:78-80 | a step writes at most its own file |
| `StringsXmlTranslator.LocaleStepReadBack` | src/main/kotlin/io/github/philkes/android/auto/translation/task/StringsXmlTranslator.kt:45-84 | after a successful call the locale's file parses back to the existing entries plus the unmasked answers |
| `StringsXmlTranslator.EchoAddsSourceTexts` | src/main/kotlin/io/github/philkes/android/auto/translation/task/StringsXmlTranslator.kt:59-70 | an echoing provider gets the source texts back, placeholders intact |
| `StringsXmlTranslator.RunTargets` | src/main/kotlin/io/github/philkes/android/auto/translation/task/StringsXmlTranslator.kt:45-84 | the loop keeps the tree well formed and stops at a parse error |
| `StringsXmlTranslator.EarlyExits` | src/main/kotlin/io/github/philkes/android/auto/translation/task/StringsXmlTranslator.kt:24-44 | no target means no read at all; a missing source file is fatal; an empty source is a no-op |
| `StringsXmlTranslator.RunTargetsStopped` | src/main/kotlin/io/github/philkes/android/auto/translation/task/StringsXmlTranslator.kt:45-84 | after a parse error the later locales change nothing |
| `StringsXmlTranslator.TranslateLocale` | src/main/kotlin/io/github/philkes/android/auto/translation/task/StringsXmlTranslator.kt:46-83 | one locale on the file system behaves as the step says |
| `StringsXmlTranslator.Translate` | src/main/kotlin/io/github/philkes/android/auto/translation/task/StringsXmlTranslator.kt:15-85 | `translate` on the file system behaves as the model says, error included |
| `StringsXmlTranslator.TranslateTargets` | src/main/kotlin/io/github/philkes/android/auto/translation/task/StringsXmlTranslator.kt:45-84 | the locale loop on the file system behaves as the model says |
| `Fastlane.FindLocaleFolder` | src/main/kotlin/io/github/philkes/auto/translation/plugin/task/FastlaneTranslator.kt:180-182 | the first folder whose name decodes to exactly the source locale, or none when no folder does |
| `Fastlane.FirstDecoding` | src/main/kotlin/io/github/philkes/auto/translation/plugin/task/FastlaneTranslator.kt:181 | the index of the first such name from a position on |
| `Fastlane.TargetCodes` | src/main/kotlin/io/github/philkes/auto/translation/plugin/task/FastlaneTranslator.kt:57-59 | explicit codes sorted as given; otherwise every folder name not excluded, sorted |
| `Fastlane.Targets` | src/main/kotlin/io/github/philkes/auto/translation/plugin/task/FastlaneTranslator.kt:61-72 | targets are the decodable codes other than the source folder's, each with its locale |
| `Fastlane.MakePlan` | src/main/kotlin/io/github/philkes/auto/translation/plugin/task/FastlaneTranslator.kt:107-144 | a plan lists exactly the `.txt` files under the source folder; no folder decoding to the source means no plan |
| `Fastlane.Output` | src/main/kotlin/io/github/philkes/auto/translation/plugin/task/FastlaneTranslator.kt:77-80 | an output lies in the target's folder under the root |
| `Fastlane.OutputInjective` | src/main/kotlin/io/github/philkes/auto/translation/plugin/task/FastlaneTranslator.kt:77-80 | different source files have different outputs |
| `Fastlane.Missing` | src/main/kotlin/io/github/philkes/auto/translation/plugin/task/FastlaneTranslator.kt:82 | exactly the source files whose output does not exist, each once |
| `Fastlane.Outputs` | src/main/kotlin/io/github/philkes/auto/translation/plugin/task/FastlaneTranslator.kt:77-82 | the i-th output is the output of the i-th file |
| `Fastlane.TargetMissing` | src/main/kotlin/io/github/philkes/auto/translation/plugin/task/FastlaneTranslator.kt:76-83 | every missing output is absent and lies in the target's folder |
| `Fastlane.AllMissing` | src/main/kotlin/io/github/philkes/auto/translation/plugin/task/FastlaneTranslator.kt:75-84 | every collected output is absent and lies under the root |
| `Fastlane.ResolvedOutputs` | src/main/kotlin/io/github/philkes/auto/translation/plugin/task/FastlaneTranslator.kt:22-85 | resolved outputs are absent and under the root; a missing root gives none |
| `Fastlane.ResolveTargets` | src/main/kotlin/io/github/philkes/auto/translation/plugin/task/FastlaneTranslator.kt:22-85 | `resolveTargets` on the file system gives the resolved outputs |
| `Fastlane.CollectMissing` | src/main/kotlin/io/github/philkes/auto/translation/plugin/task/FastlaneTranslator.kt:75-84 | the loop collects every target's missing outputs in order |
| `Fastlane.Contents` | src/main/kotlin/io/github/philkes/auto/translation/plugin/task/FastlaneTranslator.kt:160 | the i-th text is the content of the i-th missing file |
| `Fastlane.WriteAll` | src/main/kotlin/io/github/philkes/auto/translation/plugin/task/FastlaneTranslator.kt:169-173 | each output receives its text and every other file is kept |
| `Fastlane.TargetStep` | src/main/kotlin/io/github/philkes/auto/translation/plugin/task/FastlaneTranslator.kt:147-177 | a target step keeps the folders and every existing file path, and the source files stay readable |
| `Fastlane.WriteAnswers` | src/main/kotlin/io/github/philkes/auto/translation/plugin/task/FastlaneTranslator.kt:169-173 | every existing file path is kept and every new file is one of the outputs |
| `Fastlane.RunTargets` | src/main/kotlin/io/github/philkes/auto/translation/plugin/task/FastlaneTranslator.kt:147-177 | the loop keeps the folders and every existing file path |
| `Fastlane.Translation` | src/main/kotlin/io/github/philkes/auto/translation/plugin/task/FastlaneTranslator.kt:95-178 | `translate` keeps the folders and every existing file path |
| `Fastlane.WriteTranslated` | src/main/kotlin/io/github/philkes/auto/translation/plugin/task/FastlaneTranslator.kt:169-173 | the answers are written in order; an answer beyond the outputs is reported |
| `Fastlane.TranslateTarget` | src/main/kotlin/io/github/philkes/auto/translation/plugin/task/FastlaneTranslator.kt:147-177 | one target on the file system behaves as the step says |
| `Fastlane.Translate` | src/main/kotlin/io/github/philkes/auto/translation/plugin/task/FastlaneTranslator.kt:95-178 | `translate` on the file system behaves as the model says |
| `Fastlane.TranslateTargets` | src/main/kotlin/io/github/philkes/auto/translation/plugin/task/FastlaneTranslator.kt:147-177 | the target loop on the file system behaves as the model says |
| `Fastlane.RunTargetsStopped` | src/main/kotlin/io/github/philkes/auto/translation/plugin/task/FastlaneTranslator.kt:147-177 | after a fatal error the later targets change nothing |
| `Fastlane.NothingMissingNoCall` | src/main/kotlin/io/github/philkes/auto/translation/plugin/task/FastlaneTranslator.kt:155-158 | when every output exists the target is skipped without a provider call |
| `Fastlane.ProviderFailureSkipsTarget` | src/main/kotlin/io/github/philkes/auto/translation/plugin/task/FastlaneTranslator.kt:161-167 | a failing provider leaves the tree as it was |
| `Fastlane.StepNeverOverwrites` | src/main/kotlin/io/github/philkes/auto/translation/plugin/task/FastlaneTranslator.kt:154-173 | a step never rewrites an existing file and only creates the target's missing outputs |
| `Fastlane.StepWritesAnswers` | src/main/kotlin/io/github/philkes/auto/translation/plugin/task/FastlaneTranslator.kt:169-173 | with one answer per missing file, the i-th answer lands in the i-th missing output |
| `Fastlane.TooManyAnswersIsFatal` | src/main/kotlin/io/github/philkes/auto/translation/plugin/task/FastlaneTranslator.kt:169-170 | more answers than missing files: all missing outputs are written, then the run stops with an error |
| `Fastlane.RunTargetsKeepsFiles` | src/main/kotlin/io/github/philkes/auto/translation/plugin/task/FastlaneTranslator.kt:147-177 | the whole loop never rewrites a file that existed before |
| `Fastlane.TranslationKeepsFiles` | src/main/kotlin/io/github/philkes/auto/translation/plugin/task/FastlaneTranslator.kt:95-178 | `translate` never rewrites a file that existed before |
| `Fastlane.RunTargetsIdle` | src/main/kotlin/io/github/philkes/auto/translation/plugin/task/FastlaneTranslator.kt:147-177 | with nothing missing the loop changes nothing |
| `Fastlane.NothingResolvedNothingWritten` | src/main/kotlin/io/github/philkes/auto/translation/plugin/task/FastlaneTranslator.kt:22-178 | when nothing resolves on an existing root, `translate` changes nothing |
| `Fastlane.RunTargetsCreates` | src/main/kotlin/io/github/philkes/auto/translation/plugin/task/FastlaneTranslator.kt:147-177 | with a full-answering provider the loop creates exactly the missing outputs |
| `Fastlane.ResolvedAreCreated` | src/main/kotlin/io/github/philkes/auto/translation/plugin/task/FastlaneTranslator.kt:22-178 | the files `translate` creates are exactly the outputs `resolveTargets` names, and it errs only on a missing root |
| `Fastlane.StubFillsMissing` | src/main/kotlin/io/github/philkes/auto/translation/plugin/task/FastlaneTranslator.kt:147-177 | with the test stub every missing output receives its source text tagged with the target code |
| `Fastlane.HelloAppWritten` | src/test/kotlin/io/github/philkes/auto/translation/plugin/FastlaneTranslatorTest.kt:16-45 | in the `de-DE` folder `Hello App` is written as `Hello App [DE_DE]` |
| `LegacyFastlane.Step` | src/main/kotlin/io/github/philkes/android/auto/translation/task/FastlaneTranslator.kt:73-92 | a step keeps the folders and every existing file path |
| `LegacyFastlane.RunTargets` | src/main/kotlin/io/github/philkes/android/auto/translation/task/FastlaneTranslator.kt:73-92 | the loop keeps the folders and every existing file path |
| `LegacyFastlane.Translation` | src/main/kotlin/io/github/philkes/android/auto/translation/task/FastlaneTranslator.kt:21-93 | a missing root is fatal; no plan is a no-op |
| `LegacyFastlane.TranslateTarget` | src/main/kotlin/io/github/philkes/android/auto/translation/task/FastlaneTranslator.kt:73-92 | one target on the file system behaves as the step says |
| `LegacyFastlane.TranslateTargets` | src/main/kotlin/io/github/philkes/android/auto/translation/task/FastlaneTranslator.kt:73-92 | the target loop on the file system behaves as the model says |
| `LegacyFastlane.Translate` | src/main/kotlin/io/github/philkes/android/auto/translation/task/FastlaneTranslator.kt:21-93 | `translate` on the file system behaves as the model says |
| `LegacyFastlane.RunTargetsStopped` | src/main/kotlin/io/github/philkes/android/auto/translation/task/FastlaneTranslator.kt:73-92 | after a fatal error the later targets change nothing |
| `LegacyFastlane.ProviderFailureSkipsTarget` | src/main/kotlin/io/github/philkes/android/auto/translation/task/FastlaneTranslator.kt:75-81 | a failing provider leaves the tree as it was |
| `LegacyFastlane.StepOverwrites` | src/main/kotlin/io/github/philkes/android/auto/translation/task/FastlaneTranslator.kt:83-88 | with one answer per source file, every output is replaced by its answer and nothing else changes |
| `LegacyFastlane.OutputsOutside` | src/main/kotlin/io/github/philkes/android/auto/translation/task/FastlaneTranslator.kt:83-88 | every output lies in the target's folder |
| `LegacyFastlane.StepFrame` | src/main/kotlin/io/github/philkes/android/auto/translation/task/FastlaneTranslator.kt:73-92 | a step leaves every file outside the target's folder as it was |
| `LegacyFastlane.StepTranslates` | src/main/kotlin/io/github/philkes/android/auto/translation/task/FastlaneTranslator.kt:73-92 | one more target keeps earlier work and the sources and fills its own folder |
| `LegacyFastlane.RunTargetsTranslatesAll` | src/main/kotlin/io/github/philkes/android/auto/translation/task/FastlaneTranslator.kt:73-92 | with a full-answering provider each target's outputs hold the translations of the original sources |
| `LegacyFastlane.TranslationTranslatesAll` | src/main/kotlin/io/github/philkes/android/auto/translation/task/FastlaneTranslator.kt:21-93 | when a plan exists, every target folder receives the translation of every source file |
| `LegacyTask.QualifierOf` | src/main/kotlin/io/github/philkes/android/auto/translation/AutoTranslateTask.kt:150-151 | the qualifier is what follows `values-`, or none for a name without that prefix |
| `LegacyTask.LanguageOf` | src/main/kotlin/io/github/philkes/android/auto/translation/AutoTranslateTask.kt:150-155 | a folder contributes a language exactly when it is `values-<q>` with non-blank `q`; the language is `q` cut before '-' |
| `LegacyTask.LanguagesContent` | src/main/kotlin/io/github/philkes/android/auto/translation/AutoTranslateTask.kt:147-159 | a language is collected exactly when some listed folder contributes it |
| `LegacyTask.TargetLanguagesGiven` | src/main/kotlin/io/github/philkes/android/auto/translation/AutoTranslateTask.kt:143-145 | explicit languages are taken as given; none given and detection off gives none |
| `LegacyTask.TargetLanguagesDetected` | src/main/kotlin/io/github/philkes/android/auto/translation/AutoTranslateTask.kt:147-160 | detected languages are strictly ascending and are exactly those of the `values-*` folders of an existing resource dir |
| `LegacyTask.ResolveTargetLanguages` | src/main/kotlin/io/github/philkes/android/auto/translation/AutoTranslateTask.kt:142-161 | the loop gives the target languages |
| `LegacyTask.ReadStrings` | src/main/kotlin/io/github/philkes/android/auto/translation/AutoTranslateTask.kt:163-187 | reading yields a well-formed map |
| `LegacyTask.ReadStringsKeys` | src/main/kotlin/io/github/philkes/android/auto/translation/AutoTranslateTask.kt:171-181 | a key is read exactly when a kept `<string>` carries it; a read key is never blank |
| `LegacyTask.ReadStringsSkips` | src/main/kotlin/io/github/philkes/android/auto/translation/AutoTranslateTask.kt:169-181 | blank names, `translatable="false"` and `<plurals>` are never read |
| `LegacyTask.ParseStringsXml` | src/main/kotlin/io/github/philkes/android/auto/translation/AutoTranslateTask.kt:163-187 | `parseStringsXml` on the file system gives the read map |
| `LegacyTask.StringElements` | src/main/kotlin/io/github/philkes/android/auto/translation/AutoTranslateTask.kt:195-200 | one `<string>` per key, in order, with its value and no `translatable` attribute |
| `LegacyTask.WrittenStringsContent` | src/main/kotlin/io/github/philkes/android/auto/translation/AutoTranslateTask.kt:189-211 | the written file lists every entry once, sorted by name, with its value and nothing else |
| `LegacyTask.WriteReadRoundTrip` | src/main/kotlin/io/github/philkes/android/auto/translation/AutoTranslateTask.kt:163-211 | writing then reading gives the same map when no key is blank |
| `LegacyTask.BlankKeyIsLost` | src/main/kotlin/io/github/philkes/android/auto/translation/AutoTranslateTask.kt:163-211 | a blank key is written but not read back |
| `LegacyTask.WriteStringsXml` | src/main/kotlin/io/github/philkes/android/auto/translation/AutoTranslateTask.kt:189-211 | the file is replaced by the written elements |
| `LegacyTask.Choose` | src/main/kotlin/io/github/philkes/android/auto/translation/AutoTranslateTask.kt:79-94 | the test override wins; otherwise only `deepl`, in any case, with a non-blank key gives a provider |
| `LegacyTask.BaseTexts` | src/main/kotlin/io/github/philkes/android/auto/translation/AutoTranslateTask.kt:120 | the i-th text sent is the base text of the i-th missing key, unmasked |
| `LegacyTask.Merged` | src/main/kotlin/io/github/philkes/android/auto/translation/AutoTranslateTask.kt:128-133 | the merge is a well-formed map |
| `LegacyTask.MergedKeepsExisting` | src/main/kotlin/io/github/philkes/android/auto/translation/AutoTranslateTask.kt:128-133 | existing entries are kept, each missing key gets its answer, and nothing else is added |
| `LegacyTask.LangStep` | src/main/kotlin/io/github/philkes/android/auto/translation/AutoTranslateTask.kt:109-139 | a language step keeps the tree well formed |
| `LegacyTask.RunLangs` | src/main/kotlin/io/github/philkes/android/auto/translation/AutoTranslateTask.kt:109-139 | the language loop keeps the tree well formed |
| `LegacyTask.Translation` | src/main/kotlin/io/github/philkes/android/auto/translation/AutoTranslateTask.kt:71-140 | `translate` keeps the tree well formed |
| `LegacyTask.EarlyExits` | src/main/kotlin/io/github/philkes/android/auto/translation/AutoTranslateTask.kt:75-107 | no language, no provider, no base file or an empty base leaves every file as it was |
| `LegacyTask.NoKeyDryRun` | src/main/kotlin/io/github/philkes/android/auto/translation/AutoTranslateTask.kt:62-94 | with the conventions, a missing or blank API key writes nothing |
| `LegacyTask.LangStepFrame` | src/main/kotlin/io/github/philkes/android/auto/translation/AutoTranslateTask.kt:109-139 | a step writes at most its language's file |
| `LegacyTask.LangStepWrites` | src/main/kotlin/io/github/philkes/android/auto/translation/AutoTranslateTask.kt:113-137 | after a successful request the file reads back as existing entries plus answered missing keys |
| `LegacyTask.OnlyMissingSent` | src/main/kotlin/io/github/philkes/android/auto/translation/AutoTranslateTask.kt:113-122 | only the missing base keys are sent, with their base texts |
| `LegacyTask.TranslateLang` | src/main/kotlin/io/github/philkes/android/auto/translation/AutoTranslateTask.kt:109-139 | one language on the file system behaves as the step says |
| `LegacyTask.Translate` | src/main/kotlin/io/github/philkes/android/auto/translation/AutoTranslateTask.kt:71-140 | `translate` on the file system behaves as the model says |
| `LegacyTask.TranslateLangs` | src/main/kotlin/io/github/philkes/android/auto/translation/AutoTranslateTask.kt:109-139 | the language loop on the file system behaves as the model says |
| `LegacyTask.ScenarioGerman` | src/test/kotlin/io/github/philkes/android/auto/translation/AutoTranslateTaskIntegrationTest.kt:32-75 | German keeps `hello = Hallo` and adds `bye = Bye [de]` |
| `LegacyTask.ScenarioFrench` | src/test/kotlin/io/github/philkes/android/auto/translation/AutoTranslateTaskIntegrationTest.kt:77-82 | French is created with both keys tagged `[fr]` |
| `LegacyTask.ScenarioTranslated` | src/test/kotlin/io/github/philkes/android/auto/translation/AutoTranslateTaskIntegrationTest.kt:17-83 | the whole run writes both files as the integration test expects, without `skip_me` |

## Left out

- Logging, Gradle properties and task wiring, and XML serialisation to bytes (indentation, encoding, declaration) are left out. A document is modelled as its element sequence.
- `mkdirs`: folders are not modelled as created by writes. A write adds only the file.
- Network calls of DeepL, Google, Azure, OpenAI and LibreTranslate:
  - each client is an uninterpreted function;
  - Azure, OpenAI and LibreTranslate services are not part of this model.
- `Locale.isoCode` (used by the default `localeToApiString`) is not part of this model. It is a function parameter.
- The JDK's legacy ISO remapping of language codes (`iw`/`he`, `in`/`id`) is left out. The `Locale` constructor is modelled by ASCII lower-casing of the language and upper-casing of the country.
- `toIsoLocale` as imported by the android-package translators is not part of this model. The plugin's `MiscExtensions.kt` definition is used for both.
- The `TranslationProvider` interface of the original `AutoTranslateTask` and its `DeepLTranslationProvider` are not part of this model. They are a function value and a constructor parameter.
- `StringsXml.PluralMatch`: the regex's `$` matching before a final line terminator is not modelled; a key ending in a line terminator is treated as not matching.
- `StringsXml.QuantityItemsOrder`: the comparator's `Int.MAX_VALUE` rank and its tie-break on the quantity name are not reached. `write` only groups the six known quantities, and the lemma is stated for those.
- `StringsXml.WriteParseRoundTrip`: stated only for entries whose name or plural base is not blank. A blank one is written but skipped by `parse`.
- `LegacyTask.WriteReadRoundTrip`: stated only for maps without blank keys (see `LegacyTask.BlankKeyIsLost`).
- Key order inside the merged `LinkedHashMap` is not stated. Both writers sort by name, so it cannot be observed in the written file.
- `TestTranslationService` declares a three-argument `translateBatch`, but the plugin's base class declares a four-argument one. The model gives the stub the four-argument backend; the stub ignores the text format.
- Exceptions other than a provider's (an unreadable source `.txt` file, a failed write) are not modelled. Reads and writes always succeed in the model.
- `Ordering.Below`: strings are compared by Unicode code point, where Kotlin's `String.compareTo` compares UTF-16 code units. The two orders differ only when a supplementary character (U+10000 and above, whose first code unit lies in 0xD800..0xDBFF) meets a character in U+E000..U+FFFF at the same position. For example, Kotlin sorts "😀" (U+1F600) before "Ａ" (U+FF21), and the model sorts it after. Every sort built on `Ordering.Below` inherits this: `Ordering.Sort`, `Ordering.SortedSet`, the name order of `StringsXml.Write` and `LegacyTask.WriteStringsXml`, and the code order of `Fastlane.TargetCodes` and `StringsXmlTranslator.LocalesFrom`.
- `Text.Upper`: only ASCII 'a'..'z' are upper-cased. Kotlin's `uppercase()` maps all of Unicode with `Locale.ROOT`: 'é' becomes 'É', and 'ß' becomes "SS", which changes the length. For an ISO code holding non-ASCII letters, `DeepL.ApiString` and the ` [CODE]` marker of `TestService.Tagged` therefore differ from the source. The JDK's ISO codes are ASCII.
- `Locales.JavaString`: locale extensions are not modelled. The JDK catalogue holds `ja_JP_JP_#u-ca-japanese` and `th_TH_TH_#u-nu-thai`. For these, `Locale.toString()` (as used by `LegacyServices.DefaultApiString`) prints the extension, and `Locale.equals` compares it (Fastlane's `== srcLang`, DeepL's `when (locale)`). The `catalog` parameter's locales carry no extension, so those two entries are represented without it.
