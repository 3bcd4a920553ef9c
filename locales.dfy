/** `toIsoLocale` and `androidCode` (MiscExtensions.kt): the codec between
    directory qualifiers such as `zh-rCN` or `de-DE` and `java.util.Locale`
    values. The JDK's list of available locales is the `catalog` parameter. */
module Locales {
  import opened Wrappers
  import opened Text

  /** `java.util.Locale`. Some entries of the JDK's catalogue also carry a
      script (e.g. `sr_BA_#Latn`); `equals` compares all four parts (extensions are not modelled). */
  datatype Locale = Locale(language: string, country: string, variant: string, script: string)

  /** `Locale(language, country, variant)`: the constructor lower-cases the
      language and upper-cases the country (ASCII only) and keeps the variant. */
  function NewLocale(language: string, country: string, variant: string): Locale {
    Locale(Lower(language), Upper(country), variant, "")
  }

  /** The locale `toIsoLocale` builds from a qualifier before the catalogue
      lookup: split on '-' and '_', segment 0 is the language, segment 1 with
      every 'r' removed the country, segment 2 the variant; more segments are
      ignored and missing ones are "". */
  function QualifierLocale(code: string): Locale {
    var parts := SplitOnSeparators(code);
    NewLocale(PartOrEmpty(parts, 0), RemoveChar(PartOrEmpty(parts, 1), 'r'), PartOrEmpty(parts, 2))
  }

  /** The comparison `toIsoLocale` makes: language, country and variant, not the script. */
  predicate SameTriple(a: Locale, b: Locale) {
    a.language == b.language && a.country == b.country && a.variant == b.variant
  }

  /** Index of the first catalogue entry with the triple of `l`, or |catalog|. */
  function FirstMatch(catalog: seq<Locale>, l: Locale): (i: nat)
    ensures i <= |catalog|
    ensures forall j | 0 <= j < i :: !SameTriple(catalog[j], l)
    ensures i < |catalog| ==> SameTriple(catalog[i], l)
  {
    if catalog == [] then 0
    else if SameTriple(catalog[0], l) then 0
    else 1 + FirstMatch(catalog[1..], l)
  }

  /** `String.toIsoLocale()`: none for a blank code; otherwise the first
      catalogue entry whose triple is the qualifier's, or none. */
  function ToIsoLocale(code: string, catalog: seq<Locale>): (r: Option<Locale>)
    ensures IsBlank(code) ==> r == None
    ensures r.Some? ==> r.value in catalog && SameTriple(r.value, QualifierLocale(code))
    ensures r.Some? ==> exists i | 0 <= i < |catalog| :: catalog[i] == r.value
                          && forall j | 0 <= j < i :: !SameTriple(catalog[j], r.value)
    ensures r.None? && !IsBlank(code) ==>
              forall l | l in catalog :: !SameTriple(l, QualifierLocale(code))
  {
    if IsBlank(code) then None
    else
      var q := QualifierLocale(code);
      var i := FirstMatch(catalog, q);
      if i == |catalog| then None else Some(catalog[i])
  }

  /** `Locale.androidCode`: the language, then `-r` and the country when the
      country is not blank; the variant and the script are dropped. */
  function AndroidCode(l: Locale): string {
    l.language + (if IsBlank(l.country) then "" else "-r" + l.country)
  }

  /** A catalogue entry as the JDK normalises it and as `androidCode` can
      spell it: a lower-case language, an upper-case or numeric country, no variant. */
  predicate CanonicalTag(l: Locale) {
    && |l.language| > 0
    && (forall i | 0 <= i < |l.language| :: IsLowerLetter(l.language[i]))
    && (forall i | 0 <= i < |l.country| :: IsUpperLetter(l.country[i]) || IsDigit(l.country[i]))
    && l.variant == ""
  }

  lemma LowerKeeps(s: string)
    requires forall i | 0 <= i < |s| :: !IsUpperLetter(s[i])
    ensures Lower(s) == s
  {
  }

  lemma UpperKeeps(s: string)
    requires forall i | 0 <= i < |s| :: !IsLowerLetter(s[i])
    ensures Upper(s) == s
  {
  }

  /** Decoding what `androidCode` wrote finds a catalogue locale with the same
      language and country (the variant and the script are lost on the way). */
  lemma AndroidCodeRoundTrip(l: Locale, catalog: seq<Locale>)
    requires l in catalog && CanonicalTag(l)
    ensures ToIsoLocale(AndroidCode(l), catalog).Some?
    ensures ToIsoLocale(AndroidCode(l), catalog).value.language == l.language
    ensures ToIsoLocale(AndroidCode(l), catalog).value.country == l.country
  {
    var code := AndroidCode(l);
    assert code[0] == l.language[0];
    assert !IsBlank(code) by {
      assert IsLowerLetter(code[0]);
    }
    QualifierOfAndroidCode(l);
  }

  lemma QualifierOfAndroidCode(l: Locale)
    requires CanonicalTag(l)
    ensures SameTriple(l, QualifierLocale(AndroidCode(l)))
  {
    assert NoSeparator(l.language);
    LowerKeeps(l.language);
    if l.country == [] {
      QualifierOfLanguage(l);
    } else {
      QualifierOfRegion(l);
    }
  }

  lemma QualifierOfLanguage(l: Locale)
    requires CanonicalTag(l) && l.country == [] && NoSeparator(l.language) && Lower(l.language) == l.language
    ensures SameTriple(l, QualifierLocale(AndroidCode(l)))
  {
    var code := AndroidCode(l);
    assert code == l.language;
    SplitWithoutSeparator(l.language);
    QualifierOfParts(code, [l.language]);
  }

  lemma QualifierOfRegion(l: Locale)
    requires CanonicalTag(l) && l.country != [] && NoSeparator(l.language) && Lower(l.language) == l.language
    ensures SameTriple(l, QualifierLocale(AndroidCode(l)))
  {
    RegionParts(l);
    QualifierOfParts(AndroidCode(l), [l.language, "r" + l.country]);
    RemoveLeadingR(l.country);
    UpperKeeps(l.country);
  }

  /** A code with a region splits into the language and `r` + the country. */
  lemma RegionParts(l: Locale)
    requires CanonicalTag(l) && l.country != [] && NoSeparator(l.language)
    ensures SplitOnSeparators(AndroidCode(l)) == [l.language, "r" + l.country]
  {
    assert !IsBlank(l.country) by {
      assert !IsWhitespace(l.country[0]);
    }
    var tail := "r" + l.country;
    assert NoSeparator(tail);
    assert AndroidCode(l) == l.language + ['-'] + tail;
    SplitAtSeparator(l.language, '-', tail);
    SplitWithoutSeparator(tail);
  }

  lemma QualifierOfParts(code: string, parts: seq<string>)
    requires SplitOnSeparators(code) == parts
    ensures QualifierLocale(code)
         == NewLocale(PartOrEmpty(parts, 0), RemoveChar(PartOrEmpty(parts, 1), 'r'), PartOrEmpty(parts, 2))
  {
  }

  lemma RemoveLeadingR(country: string)
    requires forall i | 0 <= i < |country| :: IsUpperLetter(country[i]) || IsDigit(country[i])
    ensures RemoveChar("r" + country, 'r') == country
  {
    assert ("r" + country)[1..] == country;
    assert 'r' !in country;
  }

  /** `Locale.toString()` without extensions: language, `_country`, `_variant`
      and `_#script`, each part only where the JDK prints it. */
  function JavaString(l: Locale): string {
    var hasL := l.language != "";
    var hasR := l.country != "";
    var hasV := l.variant != "";
    var hasS := l.script != "";
    l.language
    + (if hasR || (hasL && (hasV || hasS)) then "_" + l.country else "")
    + (if hasV && (hasL || hasR) then "_" + l.variant else "")
    + (if hasS && (hasL || hasR) then "_#" + l.script else "")
  }

  /** `de` decodes to German without a country. */
  lemma QualifierOfLanguageOnly()
    ensures QualifierLocale("de") == Locale("de", "", "", "")
  {
    SplitWithoutSeparator("de");
    QualifierOfParts("de", ["de"]);
    LowerKeeps("de");
    assert PartOrEmpty(["de"], 1) == "";
    assert RemoveChar("", 'r') == "";
    assert Upper("") == "";
  }

  /** `zh-rCN` decodes to Chinese in China: the `r` marker is stripped. */
  lemma QualifierWithRegionMarker()
    ensures QualifierLocale("zh-rCN") == Locale("zh", "CN", "", "")
  {
    var l := Locale("zh", "CN", "", "");
    assert !IsBlank("CN") by { assert !IsWhitespace("CN"[0]); }
    assert AndroidCode(l) == "zh-rCN";
    QualifierOfAndroidCode(l);
  }

  lemma NoSeparatorIn(s: string)
    requires s in {"xx", "yy", "zz"}
    ensures NoSeparator(s)
  { }

  /** An over-long qualifier does not fail: the segments after the third are
      ignored, and the lookup is for (xx, YY, zz). */
  lemma OverlongQualifier()
    ensures QualifierLocale("xx-yy-zz-too-many") == Locale("xx", "YY", "zz", "")
  {
    SplitOverlong();
    var rest := SplitOnSeparators("too-many");
    QualifierOfParts("xx-yy-zz-too-many", ["xx", "yy", "zz"] + rest);
    LeadingParts(rest);
    OverlongCountry();
    LowerKeeps("xx");
  }

  lemma LeadingParts(rest: seq<string>)
    ensures PartOrEmpty(["xx", "yy", "zz"] + rest, 0) == "xx"
    ensures PartOrEmpty(["xx", "yy", "zz"] + rest, 1) == "yy"
    ensures PartOrEmpty(["xx", "yy", "zz"] + rest, 2) == "zz"
  { }

  lemma OverlongCountry()
    ensures Upper(RemoveChar("yy", 'r')) == "YY"
  {
    assert RemoveChar("yy", 'r') == "yy";
    assert Upper("yy") == "YY";
  }

  lemma SplitOverlong()
    ensures SplitOnSeparators("xx-yy-zz-too-many") == ["xx", "yy", "zz"] + SplitOnSeparators("too-many")
  {
    NoSeparatorIn("xx");
    NoSeparatorIn("yy");
    NoSeparatorIn("zz");
    JoinOverlong();
    SplitThree("xx", "yy", "zz", "too-many");
  }

  lemma JoinOverlong()
    ensures "xx-yy-zz-too-many" == "xx" + ['-'] + ("yy" + ['-'] + ("zz" + ['-'] + "too-many"))
  { }

  lemma SplitThree(a: string, b: string, c: string, rest: string)
    requires NoSeparator(a) && NoSeparator(b) && NoSeparator(c)
    ensures SplitOnSeparators(a + ['-'] + (b + ['-'] + (c + ['-'] + rest)))
         == [a, b, c] + SplitOnSeparators(rest)
  {
    SplitAtSeparator(c, '-', rest);
    SplitAtSeparator(b, '-', c + ['-'] + rest);
    SplitAtSeparator(a, '-', b + ['-'] + (c + ['-'] + rest));
  }
}
