/** The provider contract of the plugin package (`provider/TranslationService.kt`):
    a public batch call on locales that converts both locales to the backend's
    API strings, in their source and target roles, and hands everything else
    to the backend unchanged. A backend is whatever a concrete service does
    with the converted call; an exception it throws is a `Failure`. */
module TranslationServices {
  import opened Wrappers
  import opened Locales

  /** `TextFormat`: how the provider should treat markup in the texts. */
  datatype TextFormat = PlainText | Html

  /** The arguments of the protected `translateBatch(texts, textFormat,
      sourceLanguage, targetLanguage)` a backend implements. */
  datatype BatchCall = BatchCall(texts: seq<string>, format: TextFormat, source: string, target: string)

  /** What a call returns: the translated texts, or the message of the
      exception it threw. */
  type Outcome = Result<seq<string>, string>

  /** A concrete `TranslationService`: its backend method and its
      `localeToApiString(locale, isSourceLang)` hook. */
  datatype Service = Service(backend: BatchCall -> Outcome, apiString: (Locale, bool) -> string)

  /** The call the public `translateBatch` hands to the backend. */
  function Forwarded(s: Service, texts: seq<string>, format: TextFormat, source: Locale, target: Locale): (c: BatchCall)
    ensures c.texts == texts && c.format == format
    ensures c.source == s.apiString(source, true)
    ensures c.target == s.apiString(target, false)
  {
    BatchCall(texts, format, s.apiString(source, true), s.apiString(target, false))
  }

  /** The public `translateBatch(texts, textFormat, Locale, Locale)`: the
      backend's answer to the forwarded call, whatever it is. */
  function TranslateBatch(s: Service, texts: seq<string>, format: TextFormat, source: Locale, target: Locale): (r: Outcome)
    ensures r == s.backend(Forwarded(s, texts, format, source, target))
  {
    s.backend(Forwarded(s, texts, format, source, target))
  }

  /** The default `localeToApiString`: the locale's ISO code, whatever the
      role. `isoCode` is an extension the plugin defines elsewhere and is a
      parameter here. */
  function DefaultApiString(isoCode: Locale -> string, l: Locale, isSource: bool): string {
    isoCode(l)
  }

  /** The default hook gives the same string in both roles. */
  lemma DefaultIgnoresRole(isoCode: Locale -> string, l: Locale)
    ensures DefaultApiString(isoCode, l, true) == DefaultApiString(isoCode, l, false) == isoCode(l)
  {
  }

  /** A service that keeps the default hook. */
  function WithDefaultHook(backend: BatchCall -> Outcome, isoCode: Locale -> string): Service {
    Service(backend, (l, isSource) => DefaultApiString(isoCode, l, isSource))
  }

  /** With the default hook both locales reach the backend as their ISO codes. */
  lemma DefaultHookForwardsIsoCodes(backend: BatchCall -> Outcome, isoCode: Locale -> string,
                                    texts: seq<string>, format: TextFormat, source: Locale, target: Locale)
    ensures Forwarded(WithDefaultHook(backend, isoCode), texts, format, source, target)
         == BatchCall(texts, format, isoCode(source), isoCode(target))
  {
  }
}
