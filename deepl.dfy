/** `DeepLTranslationService`: DeepL's language codes and the default tag
    handling. The DeepL client itself is a parameter: a function from texts,
    codes and options to the translated texts or an error. */
module DeepL {
  import opened Wrappers
  import opened Text
  import opened Locales
  import opened TranslationServices

  /** `Locale.SIMPLIFIED_CHINESE`, i.e. `zh_CN`. */
  const SimplifiedChinese := Locale("zh", "CN", "", "")

  /** `Locale.TRADITIONAL_CHINESE`, i.e. `zh_TW`. */
  const TraditionalChinese := Locale("zh", "TW", "", "")

  /** DeepL's `localeToApiString`: the two Chinese locales get DeepL's script
      codes, every other locale its ISO code upper-cased; as a source
      language only the part before the first '-' is sent. */
  function ApiString(isoCode: Locale -> string, l: Locale, isSource: bool): (r: string)
    ensures '-' in r ==> !isSource
    ensures !isSource && l == SimplifiedChinese ==> r == "ZH-HANS"
    ensures !isSource && l == TraditionalChinese ==> r == "ZH-HANT"
    ensures !isSource && l != SimplifiedChinese && l != TraditionalChinese ==> r == Upper(isoCode(l))
  {
    var code :=
      if l == SimplifiedChinese then "ZH-HANS"
      else if l == TraditionalChinese then "ZH-HANT"
      else Upper(isoCode(l));
    if isSource then SubstringBefore(code, '-') else code
  }

  /** The source-role code is the target-role code cut before its first
      '-'; a code without '-' is the same in both roles. */
  lemma SourceRoleIsPrefix(isoCode: Locale -> string, l: Locale)
    ensures ApiString(isoCode, l, true) == SubstringBefore(ApiString(isoCode, l, false), '-')
    ensures ApiString(isoCode, l, true) <= ApiString(isoCode, l, false)
    ensures '-' !in ApiString(isoCode, l, false) ==> ApiString(isoCode, l, true) == ApiString(isoCode, l, false)
  {
  }

  /** Simplified Chinese is sent as plain `ZH` when it is the source. */
  lemma SimplifiedChineseSourceIsZh(isoCode: Locale -> string)
    ensures ApiString(isoCode, SimplifiedChinese, true) == "ZH"
  {
    ZhCut("-HANS");
  }

  /** Traditional Chinese is sent as plain `ZH` when it is the source. */
  lemma TraditionalChineseSourceIsZh(isoCode: Locale -> string)
    ensures ApiString(isoCode, TraditionalChinese, true) == "ZH"
  {
    assert TraditionalChinese != SimplifiedChinese by {
      assert TraditionalChinese.country[0] != SimplifiedChinese.country[0];
    }
    ZhCut("-HANT");
  }

  lemma ZhCut(tail: string)
    requires |tail| > 0 && tail[0] == '-'
    ensures SubstringBefore("ZH" + tail, '-') == "ZH"
  {
    SubstringBeforeAt("ZH", tail);
  }

  lemma {:induction false} SubstringBeforeAt(a: string, b: string)
    requires '-' !in a && |b| > 0 && b[0] == '-'
    ensures SubstringBefore(a + b, '-') == a
  {
    if a != [] {
      assert (a + b)[1..] == a[1..] + b;
      SubstringBeforeAt(a[1..], b);
    }
  }

  /** The DeepL text options this model keeps apart: `tagHandling`, and the
      remaining settings as name/value pairs copied unchanged. */
  datatype Options = Options(tagHandling: string, others: map<string, string>)

  /** The options the configuration constructor hands to the client: a blank
      `tagHandling` becomes `"xml"`, anything else is kept. */
  function ConfiguredOptions(o: Options): (r: Options)
    ensures r.others == o.others
    ensures IsBlank(o.tagHandling) ==> r.tagHandling == "xml"
    ensures !IsBlank(o.tagHandling) ==> r == o
    ensures !IsBlank(r.tagHandling)
  {
    if IsBlank(o.tagHandling) then
      assert !IsWhitespace("xml"[0]);
      Options("xml", o.others)
    else o
  }

  /** DeepL's client call `translateText(texts, source, target, options)`. */
  type Client = (seq<string>, string, string, Options) -> Outcome

  /** The backend: the client gets the texts and both codes; the text format
      is not passed on. */
  function Backend(client: Client, options: Options): (b: BatchCall -> Outcome) {
    (c: BatchCall) => client(c.texts, c.source, c.target, options)
  }

  /** `DeepLTranslationService(client, options)`. */
  function NewService(client: Client, options: Options, isoCode: Locale -> string): Service {
    Service(Backend(client, options), (l, isSource) => ApiString(isoCode, l, isSource))
  }

  /** A DeepL batch is the client's answer for the texts, the source code cut
      before '-' and the full target code, whatever the text format. */
  lemma TranslateBatchCallsClient(client: Client, options: Options, isoCode: Locale -> string,
                                  texts: seq<string>, format: TextFormat, source: Locale, target: Locale)
    ensures TranslateBatch(NewService(client, options, isoCode), texts, format, source, target)
         == client(texts, SubstringBefore(ApiString(isoCode, source, false), '-'), ApiString(isoCode, target, false), options)
  {
    SourceRoleIsPrefix(isoCode, source);
  }
}
