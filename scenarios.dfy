/**
 * Worked start-ups and requests: a scan over four model files (one without a
 * config, one that fails to load), and each level of the resolution
 * precedence exercised on a registry of an English and a German voice.
 */
module Scenarios {
  import opened Wrappers
  import opened VoiceKey
  import opened Registry
  import opened Resolve
  import opened Endpoints

  /**
   * Four model files in scan order: the first has a config without a sample
   * rate, the second a config naming `hz`, the third no config, and the
   * fourth fails to load. Only the first two are loaded, in scan order, the
   * first with the default 22050 Hz.
   */
  lemma ScanExample<E>(k1: string, k2: string, k3: string, k4: string, e1: E, e2: E, e3: E, hz: int)
    requires k1 != k2 && k1 != k3 && k1 != k4 && k2 != k3 && k2 != k4 && k3 != k4
    ensures var files := [ModelFile(k1, NoSampleRate, Some(e1)), ModelFile(k2, SampleRate(hz), Some(e2)),
                          ModelFile(k3, Absent, Some(e3)), ModelFile(k4, Unreadable, None)];
            LoadAll([], files) == [Entry(k1, ParseVoiceKey(k1).(sampleRate := Some(22050)), e1),
                                   Entry(k2, ParseVoiceKey(k2).(sampleRate := Some(hz)), e2)]
  {
    var files := [ModelFile(k1, NoSampleRate, Some(e1)), ModelFile(k2, SampleRate(hz), Some(e2)),
                  ModelFile(k3, Absent, Some(e3)), ModelFile(k4, Unreadable, None)];
    assert DistinctStems(files);
    assert AcceptedFiles(files) == files[..2] by {
      assert files[..3][..2] == files[..2] && files[..2][..1] == files[..1] && files[..1][..0] == [];
      assert AcceptedFiles(files[..1]) == [files[0]];
      assert AcceptedFiles(files[..2]) == [files[0], files[1]];
      assert AcceptedFiles(files[..3]) == [files[0], files[1]];
    }
    LoadAllKeys(files);
    var r := LoadAll([], files);
    assert Keys(r) == [k1, k2];
    LoadAllEntry([], files, 0);
    LoadAllEntry([], files, 1);
    assert PositionOf(r, k1) == 0 && PositionOf(r, k2) == 1;
  }

  /**
   * A registry of an English voice `a` (the default) and a German voice `b`:
   * asking for `b`'s key gets `b`, and asking for any other key fails with
   * 404 whatever language accompanies it.
   */
  lemma TwoVoiceByKey<E>(a: Entry<E>, b: Entry<E>, other: string, language: Option<string>)
    requires a.key != b.key && b.key != ""
    requires other != a.key && other != b.key && other != ""
    ensures ResolveVoice([a, b], Some(b.key), None, a.key) == Success(Resolved(b.key, b.engine))
    ensures ResolveVoice([a, b], Some(other), language, a.key) == Failure(VoiceNotFound(other, [a.key, b.key]))
  {
    assert Keys([a, b]) == [a.key, b.key];
    assert PositionOf([a, b], b.key) == 1;
  }

  /**
   * In the same registry, a language that only the German voice `b` answers
   * to (such as `"de"`) gets `b`, although the default `a` comes first.
   */
  lemma TwoVoiceByLanguage<E>(a: Entry<E>, b: Entry<E>, lang: string)
    requires a.key != b.key
    requires lang != "" && NormalizeLanguage(lang) == lang
    requires !Matches(a, lang) && b.meta.language == lang
    ensures ResolveVoice([a, b], None, Some(lang), a.key) == Success(Resolved(b.key, b.engine))
  {
    assert Keys([a, b]) == [a.key, b.key];
    assert PositionOf([a, b], b.key) == 1;
  }

  /**
   * In the same registry, a request that names neither a voice nor a
   * language gets the default `a`, and gets the first voice, again `a`, when
   * the configured default is not loaded.
   */
  lemma TwoVoiceDefault<E>(a: Entry<E>, b: Entry<E>, other: string)
    requires a.key != b.key
    requires other != a.key && other != b.key
    ensures ResolveVoice([a, b], None, None, a.key) == Success(Resolved(a.key, a.engine))
    ensures ResolveVoice([a, b], None, None, other) == Success(Resolved(a.key, a.engine))
  {
    assert Keys([a, b]) == [a.key, b.key];
    assert !Given(None);
  }

  /** A registry with no voices fails every request with 503, and reports `"no_voices"`. */
  lemma EmptyRegistryExample<E>(voice: Option<string>, language: Option<string>, defaultVoice: string)
    ensures ResolveVoice<E>([], voice, language, defaultVoice) == Failure(NoVoicesLoaded)
    ensures Status(NoVoicesLoaded) == 503
    ensures Health<E>([], defaultVoice) == HealthReport("no_voices", 0, [], defaultVoice)
  {
  }
}
