/**
 * Voice keys and the metadata derived from them. A voice key is the file stem
 * of a Piper model, `<locale>-<speaker>-<quality>` such as
 * `en_US-lessac-medium`; the locale is looked up in a fixed table of known
 * languages.
 */
module VoiceKey {
  import opened Wrappers
  import opened Text

  /** The human-readable name and the short code of a language. */
  datatype LangInfo = LangInfo(name: string, code: string)

  /** The locales the server knows by name (`LANGUAGE_MAP`). */
  const LanguageMap: map<string, LangInfo> := map[
    "en_US" := LangInfo("English (US)", "en"),
    "en_GB" := LangInfo("English (UK)", "en"),
    "de_DE" := LangInfo("German", "de"),
    "es_ES" := LangInfo("Spanish", "es"),
    "es_MX" := LangInfo("Spanish (Mexico)", "es"),
    "tr_TR" := LangInfo("Turkish", "tr"),
    "ru_RU" := LangInfo("Russian", "ru"),
    "fa_IR" := LangInfo("Persian", "fa"),
    "fr_FR" := LangInfo("French", "fr"),
    "it_IT" := LangInfo("Italian", "it"),
    "pt_BR" := LangInfo("Portuguese (Brazil)", "pt"),
    "zh_CN" := LangInfo("Chinese (Mandarin)", "zh"),
    "ar_JO" := LangInfo("Arabic", "ar")
  ]

  /**
   * The metadata dictionary of one voice. `sampleRate` is `None` while the
   * dictionary has no "sample_rate" entry, which is how `ParseVoiceKey`
   * returns it; loading a voice adds the entry afterwards.
   */
  datatype VoiceMeta = VoiceMeta(
    key: string,
    locale: string,
    language: string,
    languageName: string,
    speaker: string,
    quality: string,
    sampleRate: Option<int>)

  function Min(a: int, b: int): int
  {
    if a <= b then a else b
  }

  /** `s[:2]` in Python: the first two characters, or all of `s` if shorter. */
  function FirstTwo(s: string): (r: string)
    ensures r <= s && |r| == Min(2, |s|)
  {
    s[..Min(2, |s|)]
  }

  /** The language information of a locale: from the table, or derived from the locale itself. */
  function LanguageOf(locale: string): (info: LangInfo)
    ensures locale in LanguageMap ==> info == LanguageMap[locale]
    ensures locale !in LanguageMap ==> info.name == locale
    ensures info.code == Lower(FirstTwo(locale))
  {
    LanguageMapCodes(locale);
    if locale in LanguageMap then LanguageMap[locale]
    else LangInfo(locale, Lower(FirstTwo(locale)))
  }

  /**
   * Every code in the table is the lower-cased first two characters of its
   * locale, so the table and the fallback agree on language codes.
   */
  lemma LanguageMapCodes(locale: string)
    ensures locale in LanguageMap ==> LanguageMap[locale].code == Lower(FirstTwo(locale))
  {
    if locale in LanguageMap {
      var code := LanguageMap[locale].code;
      assert |code| == 2 && IsLower(code);
      assert FirstTwo(locale) == code;
      LowerOfLower(code);
    }
  }

  /**
   * Splits a voice key into locale, speaker and quality (`_parse_voice_key`).
   * The locale is the text before the first `-`; the speaker and quality are
   * the second and third `-`-separated parts, `"default"` and `"unknown"`
   * when missing; any further parts are ignored.
   */
  function ParseVoiceKey(key: string): (m: VoiceMeta)
    ensures m.key == key && m.sampleRate == None
    ensures '-' !in m.locale && m.locale <= key
    ensures |m.locale| < |key| ==> key[|m.locale|] == '-'
    ensures m.locale in LanguageMap ==>
              m.language == LanguageMap[m.locale].code && m.languageName == LanguageMap[m.locale].name
    ensures m.locale !in LanguageMap ==> m.languageName == m.locale
    ensures m.language == Lower(FirstTwo(m.locale))
  {
    var parts := Split(key, '-');
    SplitFirst(key, '-');
    var locale := if |parts| > 0 then parts[0] else key;
    var speaker := if |parts| > 1 then parts[1] else "default";
    var quality := if |parts| > 2 then parts[2] else "unknown";
    var info := LanguageOf(locale);
    VoiceMeta(key, locale, info.code, info.name, speaker, quality, None)
  }

  /**
   * A key written as `-`-separated parts that themselves hold no `-` parses
   * back into its first three parts; a missing speaker reads as `"default"`,
   * a missing quality as `"unknown"`, and parts after the third are ignored.
   */
  lemma ParseJoinedKey(key: string, parts: seq<string>)
    requires |parts| >= 1 && key == Join(parts, '-')
    requires forall i :: 0 <= i < |parts| ==> '-' !in parts[i]
    ensures var m := ParseVoiceKey(key);
            && m.locale == parts[0]
            && m.speaker == (if |parts| > 1 then parts[1] else "default")
            && m.quality == (if |parts| > 2 then parts[2] else "unknown")
  {
    SplitJoin(parts, '-');
  }

  /** The metadata of the server's usual default voice. */
  lemma ParseDefaultVoiceKey()
    ensures ParseVoiceKey("en_US-lessac-medium")
            == VoiceMeta("en_US-lessac-medium", "en_US", "en", "English (US)", "lessac", "medium", None)
  {
    var parts := ["en_US", "lessac", "medium"];
    assert Join(parts, '-') == "en_US-lessac-medium";
    ParseJoinedKey("en_US-lessac-medium", parts);
    var m := ParseVoiceKey("en_US-lessac-medium");
    assert m.locale == "en_US" && "en_US" in LanguageMap;
    assert m.language == "en" && m.languageName == "English (US)";
  }
}
