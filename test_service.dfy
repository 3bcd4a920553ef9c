/** `TestTranslationService`: the deterministic stub the tests use. It
    appends the upper-cased target code in brackets to every text. */
module TestService {
  import opened Wrappers
  import opened Text
  import opened Locales
  import opened TranslationServices

  /** The marker the stub appends for a target code. */
  function Marker(target: string): string {
    " [" + Upper(target) + "]"
  }

  /** `texts.map { "$it [${targetLanguage.uppercase()}]" }`. */
  function Tagged(texts: seq<string>, target: string): (r: seq<string>)
    ensures |r| == |texts|
    ensures forall i | 0 <= i < |texts| :: r[i] == texts[i] + Marker(target)
  {
    if texts == [] then [] else [texts[0] + Marker(target)] + Tagged(texts[1..], target)
  }

  /** The stub's backend: it never fails and ignores the source code and the
      format. */
  function Backend(c: BatchCall): Outcome {
    Success(Tagged(c.texts, c.target))
  }

  /** The stub with the default hook. */
  function NewService(isoCode: Locale -> string): Service {
    WithDefaultHook(Backend, isoCode)
  }

  /** Removing the marker gives back each input text, so the stub loses
      nothing. */
  lemma TaggedInverse(texts: seq<string>, target: string)
    ensures forall i | 0 <= i < |texts| ::
              var t := Tagged(texts, target)[i];
              t[..|t| - |Marker(target)|] == texts[i]
  {
  }

  /** A batch through the public call is every text tagged with the upper-cased
      ISO code of the target; the source locale plays no part. */
  lemma StubTranslateBatch(isoCode: Locale -> string, texts: seq<string>, format: TextFormat, source: Locale, target: Locale, other: Locale)
    ensures TranslateBatch(NewService(isoCode), texts, format, source, target) == Success(Tagged(texts, isoCode(target)))
    ensures TranslateBatch(NewService(isoCode), texts, format, source, target)
         == TranslateBatch(NewService(isoCode), texts, format, other, target)
  {
  }

  /** The Fastlane test's expectation: with the ISO code `de_DE` for the
      `de-DE` folder, `Hello App` comes back as `Hello App [DE_DE]`. */
  lemma HelloAppExample(isoCode: Locale -> string, source: Locale, target: Locale)
    requires isoCode(target) == "de_DE"
    ensures TranslateBatch(NewService(isoCode), ["Hello App"], PlainText, source, target) == Success(["Hello App [DE_DE]"])
  {
    StubTranslateBatch(isoCode, ["Hello App"], PlainText, source, target, source);
    assert Upper("de_DE") == "DE_DE";
    assert Marker("de_DE") == " [DE_DE]";
    assert "Hello App" + " [DE_DE]" == "Hello App [DE_DE]";
    assert Tagged(["Hello App"], "de_DE") == ["Hello App [DE_DE]"];
  }
}
