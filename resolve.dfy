/**
 * Picking the voice for a synthesis request (`_resolve_voice`). The rule is a
 * fixed precedence, first applicable step wins:
 *   1. an empty registry fails with status 503;
 *   2. a voice key, when given, must name a loaded voice exactly, else the
 *      request fails with 404 (nothing else is tried);
 *   3. a language, when given, picks the first voice in insertion order whose
 *      language code or lower-cased locale equals it, else 404 (the default is
 *      not tried);
 *   4. the configured default voice, when loaded;
 *   5. the first loaded voice.
 * Python treats `None` and the empty string alike as "not given".
 */
module Resolve {
  import opened Wrappers
  import opened Text
  import opened Registry

  /** The `HTTPException`s the resolution raises, each with the facts its detail message names. */
  datatype ResolveError =
    | NoVoicesLoaded
    | VoiceNotFound(voice: string, keys: seq<string>)
    | NoVoiceForLanguage(language: string, languages: set<string>)

  /** The HTTP status of each error. */
  function Status(e: ResolveError): (code: int)
    ensures code == 503 <==> e.NoVoicesLoaded?
    ensures code == 404 <==> !e.NoVoicesLoaded?
  {
    match e
    case NoVoicesLoaded => 503
    case VoiceNotFound(_, _) => 404
    case NoVoiceForLanguage(_, _) => 404
  }

  /** The chosen voice: its key and its engine. */
  datatype Resolved<E> = Resolved(key: string, engine: E)

  /** Python truthiness of an optional string: present and not empty. */
  predicate Given(s: Option<string>)
  {
    s.Some? && s.value != ""
  }

  /** `language.lower().strip()`. */
  function NormalizeLanguage(language: string): string
  {
    Strip(Lower(language))
  }

  /** A voice answers to a normalized language by its language code or its lower-cased locale. */
  predicate Matches<E>(e: Entry<E>, lang: string)
  {
    e.meta.language == lang || Lower(e.meta.locale) == lang
  }

  /** The language codes of the loaded voices, as the 404 detail lists them. */
  function Languages<E>(entries: seq<Entry<E>>): set<string>
  {
    set i | 0 <= i < |entries| :: entries[i].meta.language
  }

  /** The position of the first voice from `from` on that matches `lang`, if any. */
  function FirstMatch<E>(entries: seq<Entry<E>>, lang: string, from: nat): (r: Option<nat>)
    requires from <= |entries|
    ensures r.Some? ==> from <= r.value < |entries| && Matches(entries[r.value], lang)
    ensures r.Some? ==> forall j :: from <= j < r.value ==> !Matches(entries[j], lang)
    ensures r.None? ==> forall j :: from <= j < |entries| ==> !Matches(entries[j], lang)
    decreases |entries| - from
  {
    if from == |entries| then None
    else if Matches(entries[from], lang) then Some(from)
    else FirstMatch(entries, lang, from + 1)
  }

  /**
   * `_resolve_voice(voice_key, language)` against the registry `entries`,
   * with `defaultVoice` standing for `DEFAULT_VOICE`.
   */
  function ResolveVoice<E>(entries: seq<Entry<E>>, voice: Option<string>, language: Option<string>,
                           defaultVoice: string): (r: Result<Resolved<E>, ResolveError>)
    requires UniqueKeys(entries)
    // 1. nothing loaded: 503, whatever was asked
    ensures entries == [] ==> r == Failure(NoVoicesLoaded)
    // a success always names a loaded voice and hands back that voice's engine
    ensures r.Success? ==> HasKey(entries, r.value.key) && r.value.engine == Lookup(entries, r.value.key).engine
    // 2. an explicit key is used exactly, or fails with no fallback
    ensures entries != [] && Given(voice) ==>
              if HasKey(entries, voice.value) then r.Success? && r.value.key == voice.value
              else r == Failure(VoiceNotFound(voice.value, Keys(entries)))
    // 3. a language picks the first matching voice, or fails with no fallback
    ensures entries != [] && !Given(voice) && Given(language) ==>
              var lang := NormalizeLanguage(language.value);
              && (r.Success? ==> Matches(Lookup(entries, r.value.key), lang))
              && (r.Success? ==> forall j :: 0 <= j < PositionOf(entries, r.value.key) ==> !Matches(entries[j], lang))
              && (r.Failure? <==> forall j :: 0 <= j < |entries| ==> !Matches(entries[j], lang))
              && (r.Failure? ==> r.error == NoVoiceForLanguage(language.value, Languages(entries)))
    // 4. and 5. neither given: the default if loaded, else the first voice loaded
    ensures entries != [] && !Given(voice) && !Given(language) ==>
              r.Success? && r.value.key == if HasKey(entries, defaultVoice) then defaultVoice else entries[0].key
  {
    if entries == [] then
      Failure(NoVoicesLoaded)
    else if Given(voice) && HasKey(entries, voice.value) then
      Success(Resolved(voice.value, Lookup(entries, voice.value).engine))
    else if Given(voice) then
      Failure(VoiceNotFound(voice.value, Keys(entries)))
    else if Given(language) then
      var lang := NormalizeLanguage(language.value);
      match FirstMatch(entries, lang, 0)
      case Some(i) =>
        assert PositionOf(entries, entries[i].key) == i;
        Success(Resolved(entries[i].key, entries[i].engine))
      case None =>
        Failure(NoVoiceForLanguage(language.value, Languages(entries)))
    else if HasKey(entries, defaultVoice) then
      Success(Resolved(defaultVoice, Lookup(entries, defaultVoice).engine))
    else
      assert PositionOf(entries, entries[0].key) == 0;
      Success(Resolved(entries[0].key, entries[0].engine))
  }

  /** Normalizing an already normalized language changes nothing. */
  lemma NormalizeIdempotent(language: string)
    ensures NormalizeLanguage(NormalizeLanguage(language)) == NormalizeLanguage(language)
  {
    var lowered := Lower(language);
    var n := Strip(lowered);
    var i, j := StripIsSlice(lowered);
    assert IsLower(n);
    LowerOfLower(n);
    StripUnpadded(n);
  }

  /**
   * Case and surrounding whitespace of the requested language do not matter:
   * a language picks the voice its normalized form picks, and fails when that
   * fails (the error then quotes the language as it was sent). A language of
   * only whitespace is excluded: it is "given" but its normalized form, the
   * empty string, is not.
   */
  lemma LanguageNormalized<E>(entries: seq<Entry<E>>, language: string, defaultVoice: string)
    requires UniqueKeys(entries)
    requires NormalizeLanguage(language) != ""
    ensures var sent := ResolveVoice(entries, None, Some(language), defaultVoice);
            var normalized := ResolveVoice(entries, None, Some(NormalizeLanguage(language)), defaultVoice);
            (sent.Success? <==> normalized.Success?) && (sent.Success? ==> sent == normalized)
  {
    var lang := NormalizeLanguage(language);
    NormalizeIdempotent(language);
    assert NormalizeLanguage(lang) == lang;
    if entries != [] {
      assert !Given(None) && Given(Some(language)) && Given(Some(lang));
    }
  }
}
