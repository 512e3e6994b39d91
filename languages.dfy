/**
 * `is_same_language` of autosub/utils.py: two language codes name the same
 * language when their primary subtags, the text before the first `-`, agree.
 */
module Languages {
  import opened PyStrings

  /** `lang.split("-")[0]`: the text before the first `-`, or all of `lang` when it has none. */
  function PrimaryTag(lang: string): (r: string)
    ensures r <= lang && '-' !in r
    ensures |r| == |lang| <==> '-' !in lang
    ensures |r| < |lang| ==> lang[|r|] == '-'
  {
    SplitFirst(lang, '-');
    Split(lang, '-')[0]
  }

  /** The primary subtag is the only dash-free prefix that ends at a dash or at the end of the code. */
  lemma PrimaryTagUnique(lang: string, p: string)
    requires p <= lang && '-' !in p && (|p| == |lang| || lang[|p|] == '-')
    ensures p == PrimaryTag(lang)
  {
  }

  /** `is_same_language(lang1, lang2)`. */
  function IsSameLanguage(lang1: string, lang2: string): bool
  {
    PrimaryTag(lang1) == PrimaryTag(lang2)
  }

  /**
   * Two codes name the same language exactly when some dash-free string is,
   * in both, a prefix followed by a dash or by nothing.
   */
  lemma IsSameLanguageIff(lang1: string, lang2: string)
    ensures IsSameLanguage(lang1, lang2) <==>
            exists p :: Subtag(lang1, p) && Subtag(lang2, p)
  {
    if IsSameLanguage(lang1, lang2) {
      assert Subtag(lang1, PrimaryTag(lang1)) && Subtag(lang2, PrimaryTag(lang1));
    }
    forall p | Subtag(lang1, p) && Subtag(lang2, p) ensures IsSameLanguage(lang1, lang2) {
      PrimaryTagUnique(lang1, p);
      PrimaryTagUnique(lang2, p);
    }
  }

  /** `p` is a dash-free prefix of `lang` that reaches a dash or the end of `lang`. */
  predicate Subtag(lang: string, p: string)
  {
    p <= lang && '-' !in p && (|p| == |lang| || lang[|p|] == '-')
  }

  /** Codes without a region compare in full. */
  lemma PlainCodes(lang1: string, lang2: string)
    requires '-' !in lang1 && '-' !in lang2
    ensures IsSameLanguage(lang1, lang2) <==> lang1 == lang2
  {
    assert PrimaryTag(lang1) == lang1[..|lang1|] == lang1;
    assert PrimaryTag(lang2) == lang2[..|lang2|] == lang2;
  }

  /** Whatever follows the first dash does not matter. */
  lemma RegionIgnored(lang: string, region1: string, region2: string)
    requires '-' !in lang
    ensures IsSameLanguage(lang + "-" + region1, lang + "-" + region2)
    ensures IsSameLanguage(lang, lang + "-" + region1)
  {
    var a := lang + "-" + region1;
    var b := lang + "-" + region2;
    assert a[|lang|] == '-' && lang <= a;
    assert b[|lang|] == '-' && lang <= b;
    PrimaryTagUnique(a, lang);
    PrimaryTagUnique(b, lang);
    PrimaryTagUnique(lang, lang);
  }

  /** `is_same_language` is reflexive, symmetric and transitive. */
  lemma SameLanguageIsEquivalence(a: string, b: string, c: string)
    ensures IsSameLanguage(a, a)
    ensures IsSameLanguage(a, b) ==> IsSameLanguage(b, a)
    ensures IsSameLanguage(a, b) && IsSameLanguage(b, c) ==> IsSameLanguage(a, c)
  {
  }

  /** Two regional variants of English are the same language. */
  lemma RegionalVariantsSame()
    ensures IsSameLanguage("en-US", "en-GB")
  {
    RegionIgnored("en", "US", "GB");
    assert "en-US" == "en" + "-" + "US" && "en-GB" == "en" + "-" + "GB";
  }

  /** A plain code and one of its regional variants are the same language. */
  lemma PlainAndRegionalSame()
    ensures IsSameLanguage("en", "en-AU")
  {
    RegionIgnored("en", "AU", "AU");
    assert "en-AU" == "en" + "-" + "AU";
  }

  /** Codes are compared whole: `en` is not a prefix match for `eng`. */
  lemma LongerCodeDiffers()
    ensures !IsSameLanguage("en", "eng")
  {
    PlainCodes("en", "eng");
  }

  /** Different primary codes are different languages, whatever the region. */
  lemma OtherLanguageDiffers()
    ensures !IsSameLanguage("en", "fr-FR")
  {
    RegionIgnored("fr", "FR", "FR");
    assert "fr-FR" == "fr" + "-" + "FR";
    PrimaryTagUnique("en", "en");
  }
}
