/** The provider contract of the older `android` package
    (`provider/TranslationService.kt`): locales become API strings through a
    single overridable hook, `Locale.toString()` by default, and explicit API
    codes bypass it. */
module LegacyServices {
  import opened Wrappers
  import opened Locales

  /** What a call returns: the translated texts, or the message of the
      exception it threw. */
  type Outcome = Result<seq<string>, string>

  /** A concrete service: its backend `translateBatch(texts, source, target)`
      and its `localeToApiString(locale)` hook. */
  datatype LegacyService = LegacyService(backend: (seq<string>, string, string) -> Outcome, apiString: Locale -> string)

  /** The default hook, `locale.toString()`. */
  function DefaultApiString(l: Locale): string {
    JavaString(l)
  }

  /** A service that keeps the default hook. */
  function WithDefaultHook(backend: (seq<string>, string, string) -> Outcome): LegacyService {
    LegacyService(backend, DefaultApiString)
  }

  /** `toApiString(locale)`: the hook, made public. */
  function ToApiString(s: LegacyService, l: Locale): (r: string)
    ensures r == s.apiString(l)
  {
    s.apiString(l)
  }

  /** `translateBatchWithApiCodes`: both codes reach the backend unchanged. */
  function TranslateBatchWithApiCodes(s: LegacyService, texts: seq<string>, source: string, target: string): (r: Outcome)
    ensures r == s.backend(texts, source, target)
  {
    s.backend(texts, source, target)
  }

  /** `translateBatch(texts, Locale, Locale)`. */
  function TranslateBatch(s: LegacyService, texts: seq<string>, source: Locale, target: Locale): Outcome {
    s.backend(texts, s.apiString(source), s.apiString(target))
  }

  /** A batch on locales is a batch on the codes `toApiString` gives. */
  lemma TranslateBatchViaApiCodes(s: LegacyService, texts: seq<string>, source: Locale, target: Locale)
    ensures TranslateBatch(s, texts, source, target)
         == TranslateBatchWithApiCodes(s, texts, ToApiString(s, source), ToApiString(s, target))
  {
  }

  /** With the default hook the backend sees `Locale.toString()`: `de_DE` for
      German in Germany, plain `de` without a country. */
  lemma DefaultHookExamples()
    ensures DefaultApiString(Locale("de", "DE", "", "")) == "de_DE"
    ensures DefaultApiString(Locale("de", "", "", "")) == "de"
  {
  }
}
