/**
 * The voice registry: the loaded voices in insertion order, and the start-up
 * scan that fills it (`load_voices`).
 *
 * The server keeps two dictionaries, `voices` (key to engine) and
 * `voice_meta` (key to metadata). Both are written together, under the same
 * keys and in the same order, so here they are one sequence of entries, each
 * carrying its key, its metadata and its engine. A dictionary cannot hold a
 * key twice, and assigning to a key it already holds keeps that key's place:
 * `Put` models that assignment. The engine type `E` stands for the loaded
 * Piper voice, which the model never looks into.
 */
module Registry {
  import opened Wrappers
  import opened VoiceKey

  /** One loaded voice. */
  datatype Entry<E> = Entry(key: string, meta: VoiceMeta, engine: E)

  /** The keys of the registry, in insertion order (`list(voices.keys())`). */
  function Keys<E>(entries: seq<Entry<E>>): (ks: seq<string>)
    ensures |ks| == |entries|
    ensures forall i :: 0 <= i < |entries| ==> ks[i] == entries[i].key
  {
    seq(|entries|, i requires 0 <= i < |entries| => entries[i].key)
  }

  /** No key occurs twice, as in a dictionary. */
  predicate UniqueKeys<E>(entries: seq<Entry<E>>)
  {
    forall i, j :: 0 <= i < j < |entries| ==> entries[i].key != entries[j].key
  }

  /** The position of the first occurrence of `key`, or `|keys|` when there is none. */
  function Find(keys: seq<string>, key: string): (r: nat)
    ensures r <= |keys|
    ensures r < |keys| ==> keys[r] == key
    ensures forall j :: 0 <= j < r ==> keys[j] != key
  {
    if keys == [] then 0 else if keys[0] == key then 0 else 1 + Find(keys[1..], key)
  }

  /** `key in voices`. */
  predicate HasKey<E>(entries: seq<Entry<E>>, key: string)
  {
    key in Keys(entries)
  }

  /** The position of `key` in the registry. */
  function PositionOf<E>(entries: seq<Entry<E>>, key: string): (i: nat)
    requires HasKey(entries, key)
    ensures i < |entries| && entries[i].key == key
    ensures UniqueKeys(entries) ==> forall j :: 0 <= j < |entries| && entries[j].key == key ==> j == i
  {
    Find(Keys(entries), key)
  }

  /** `voices[key]` together with `voice_meta[key]`. */
  function Lookup<E>(entries: seq<Entry<E>>, key: string): (e: Entry<E>)
    requires HasKey(entries, key)
    ensures e.key == key && e in entries
  {
    entries[PositionOf(entries, key)]
  }

  /**
   * `voices[e.key] = e.engine; voice_meta[e.key] = e.meta`: an existing key
   * keeps its place and gets the new entry, a new key goes to the end.
   */
  function Put<E>(entries: seq<Entry<E>>, e: Entry<E>): (r: seq<Entry<E>>)
    ensures Keys(r) == if HasKey(entries, e.key) then Keys(entries) else Keys(entries) + [e.key]
    ensures HasKey(r, e.key) && Lookup(r, e.key) == e
    ensures forall i :: 0 <= i < |entries| && entries[i].key != e.key ==> r[i] == entries[i]
    ensures forall i :: 0 <= i < |r| ==> r[i] == e || r[i] == entries[i]
    ensures UniqueKeys(entries) ==> UniqueKeys(r)
  {
    if HasKey(entries, e.key) then
      var i := PositionOf(entries, e.key);
      var r := entries[i := e];
      assert Keys(r) == Keys(entries);
      r
    else
      var r := entries + [e];
      assert Keys(r) == Keys(entries) + [e.key];
      r
  }

  /** Entries under other keys are found where they were before a `Put`. */
  lemma PutKeepsOthers<E>(entries: seq<Entry<E>>, e: Entry<E>, key: string)
    requires key != e.key
    ensures HasKey(Put(entries, e), key) == HasKey(entries, key)
    ensures HasKey(entries, key) ==> Lookup(Put(entries, e), key) == Lookup(entries, key)
  {
    var r := Put(entries, e);
    if HasKey(entries, key) {
      var i := PositionOf(entries, key);
      assert Keys(r)[..|entries|] == Keys(entries);
      assert Find(Keys(r), key) == i;
    }
  }

  /** `voice_meta[key]["sample_rate"] = hz`, for a key that is present. */
  function SetSampleRate<E>(entries: seq<Entry<E>>, key: string, hz: int): (r: seq<Entry<E>>)
    requires HasKey(entries, key)
    ensures |r| == |entries| && Keys(r) == Keys(entries)
    ensures var i := PositionOf(entries, key);
            r[i] == entries[i].(meta := entries[i].meta.(sampleRate := Some(hz)))
    ensures forall j :: 0 <= j < |entries| && j != PositionOf(entries, key) ==> r[j] == entries[j]
  {
    var i := PositionOf(entries, key);
    var r := entries[i := entries[i].(meta := entries[i].meta.(sampleRate := Some(hz)))];
    assert Keys(r) == Keys(entries);
    r
  }

  /** The sample rate a loaded voice is given when its config does not name one. */
  const DefaultSampleRate: int := 22050

  /**
   * What reading the companion `<model>.onnx.json` of a model file yields:
   * there is no such file; it cannot be opened or parsed (or is not shaped
   * as expected); it has no `audio.sample_rate`; or it names a sample rate.
   */
  datatype ConfigFile = Absent | Unreadable | NoSampleRate | SampleRate(hz: int)

  /**
   * One `*.onnx` model file found by the scan: its stem (the voice key), what
   * its config yields, and the engine `PiperVoice.load` returns, or `None`
   * when loading raises.
   */
  datatype ModelFile<E> = ModelFile(stem: string, config: ConfigFile, engine: Option<E>)

  /** The sample rate recorded for a loaded voice. */
  function SampleRateOf(config: ConfigFile): (hz: int)
    ensures config.SampleRate? ==> hz == config.hz
    ensures !config.SampleRate? ==> hz == DefaultSampleRate
  {
    match config
    case SampleRate(hz) => hz
    case _ => DefaultSampleRate
  }

  /** A model file that ends up in the registry: its config exists and it loads. */
  predicate Accepted<E>(f: ModelFile<E>)
  {
    !f.config.Absent? && f.engine.Some?
  }

  /** The entry a loaded model file contributes. */
  function LoadedEntry<E>(f: ModelFile<E>): (e: Entry<E>)
    requires Accepted(f)
  {
    Entry(f.stem, ParseVoiceKey(f.stem).(sampleRate := Some(SampleRateOf(f.config))), f.engine.value)
  }

  /** One turn of the scan: a loaded file is put in the registry, any other leaves it as it was. */
  function LoadStep<E>(entries: seq<Entry<E>>, f: ModelFile<E>): seq<Entry<E>>
  {
    if Accepted(f) then Put(entries, LoadedEntry(f)) else entries
  }

  /** The registry after scanning `files` in order, starting from `entries`. */
  function LoadAll<E>(entries: seq<Entry<E>>, files: seq<ModelFile<E>>): seq<Entry<E>>
  {
    if files == [] then entries
    else LoadStep(LoadAll(entries, files[..|files| - 1]), files[|files| - 1])
  }

  /** The files of `files` that are accepted, in order. */
  function AcceptedFiles<E>(files: seq<ModelFile<E>>): (r: seq<ModelFile<E>>)
    ensures forall i :: 0 <= i < |r| ==> Accepted(r[i]) && r[i] in files
  {
    if files == [] then []
    else
      var init := AcceptedFiles(files[..|files| - 1]);
      var last := files[|files| - 1];
      if Accepted(last) then init + [last] else init
  }

  /** The stems of `files`, in order. */
  function Stems<E>(files: seq<ModelFile<E>>): (r: seq<string>)
    ensures |r| == |files| && forall i :: 0 <= i < |files| ==> r[i] == files[i].stem
  {
    seq(|files|, i requires 0 <= i < |files| => files[i].stem)
  }

  /** No two files share a stem, as no two files of one directory share a name. */
  predicate DistinctStems<E>(files: seq<ModelFile<E>>)
  {
    forall i, j :: 0 <= i < j < |files| ==> files[i].stem != files[j].stem
  }

  /** An entry as loading leaves it: metadata parsed from its key, plus a sample rate. */
  predicate EntryLoaded<E>(e: Entry<E>)
  {
    e.meta.sampleRate.Some? && e.meta == ParseVoiceKey(e.key).(sampleRate := e.meta.sampleRate)
  }

  /** The invariant of the registry: unique keys, every entry loaded. */
  predicate WellFormed<E>(entries: seq<Entry<E>>)
  {
    UniqueKeys(entries) && forall i :: 0 <= i < |entries| ==> EntryLoaded(entries[i])
  }

  /** One turn of the scan keeps the registry well formed. */
  lemma LoadStepWellFormed<E>(entries: seq<Entry<E>>, f: ModelFile<E>)
    requires WellFormed(entries)
    ensures WellFormed(LoadStep(entries, f))
  {
    if Accepted(f) {
      var e := LoadedEntry(f);
      assert EntryLoaded(e);
      var r := Put(entries, e);
      forall i | 0 <= i < |r| ensures EntryLoaded(r[i]) {
        if r[i] != e { assert r[i] == entries[i]; }
      }
    }
  }

  /** The whole scan keeps the registry well formed. */
  lemma {:induction false} LoadAllWellFormed<E>(entries: seq<Entry<E>>, files: seq<ModelFile<E>>)
    requires WellFormed(entries)
    ensures WellFormed(LoadAll(entries, files))
  {
    if files != [] {
      LoadAllWellFormed(entries, files[..|files| - 1]);
      LoadStepWellFormed(LoadAll(entries, files[..|files| - 1]), files[|files| - 1]);
    }
  }

  /**
   * Files without a config and files that fail to load contribute nothing:
   * scanning all files gives the registry that scanning only the accepted
   * ones gives.
   */
  lemma {:induction false} LoadAllSkipsRejected<E>(entries: seq<Entry<E>>, files: seq<ModelFile<E>>)
    ensures LoadAll(entries, files) == LoadAll(entries, AcceptedFiles(files))
  {
    if files != [] {
      var init := files[..|files| - 1];
      var last := files[|files| - 1];
      LoadAllSkipsRejected(entries, init);
      var acc := AcceptedFiles(init);
      if Accepted(last) {
        assert AcceptedFiles(files) == acc + [last];
        assert (acc + [last])[..|acc|] == acc;
      }
    }
  }

  /**
   * Scanning files with distinct stems into an empty registry inserts the
   * stems of the accepted files, in scan order: "first loaded" is the first
   * accepted file.
   */
  lemma {:induction false} LoadAllKeys<E>(files: seq<ModelFile<E>>)
    requires DistinctStems(files)
    ensures Keys(LoadAll([], files)) == Stems(AcceptedFiles(files))
  {
    if files != [] {
      var init := files[..|files| - 1];
      var last := files[|files| - 1];
      assert DistinctStems(init);
      LoadAllKeys(init);
      var before := LoadAll([], init);
      if Accepted(last) {
        assert !HasKey(before, last.stem);
        assert Stems(AcceptedFiles(files)) == Stems(AcceptedFiles(init)) + [last.stem];
      }
    }
  }

  /**
   * After a scan over files with distinct stems, every accepted file is in
   * the registry under its stem, with the metadata parsed from that stem, the
   * sample rate its config gives (22050 when it gives none), and its engine.
   */
  lemma {:induction false} LoadAllEntry<E>(entries: seq<Entry<E>>, files: seq<ModelFile<E>>, n: nat)
    requires DistinctStems(files) && n < |files| && Accepted(files[n])
    ensures var r := LoadAll(entries, files);
            HasKey(r, files[n].stem) && Lookup(r, files[n].stem) == LoadedEntry(files[n])
  {
    var init := files[..|files| - 1];
    var last := files[|files| - 1];
    if n == |files| - 1 {
      assert LoadAll(entries, files) == Put(LoadAll(entries, init), LoadedEntry(last));
    } else {
      assert DistinctStems(init) && init[n] == files[n];
      LoadAllEntry(entries, init, n);
      if Accepted(last) {
        PutKeepsOthers(LoadAll(entries, init), LoadedEntry(last), files[n].stem);
      }
    }
  }

  /**
   * A key that was not in the registry and is the stem of no accepted file
   * is not in the registry after the scan: skipped files add nothing.
   */
  lemma {:induction false} LoadAllOnlyAccepted<E>(entries: seq<Entry<E>>, files: seq<ModelFile<E>>, key: string)
    requires !HasKey(entries, key)
    requires forall i :: 0 <= i < |files| && Accepted(files[i]) ==> files[i].stem != key
    ensures !HasKey(LoadAll(entries, files), key)
  {
    if files != [] {
      var init := files[..|files| - 1];
      var last := files[|files| - 1];
      assert forall i :: 0 <= i < |init| ==> init[i] == files[i];
      LoadAllOnlyAccepted(entries, init, key);
      if Accepted(last) {
        PutKeepsOthers(LoadAll(entries, init), LoadedEntry(last), key);
      }
    }
  }

  /** Writing the parsed metadata and then its sample rate is putting the finished entry. */
  lemma PutThenSetSampleRate<E>(entries: seq<Entry<E>>, key: string, meta: VoiceMeta, engine: E, hz: int)
    requires UniqueKeys(entries)
    ensures var put := Put(entries, Entry(key, meta, engine));
            SetSampleRate(put, key, hz) == Put(entries, Entry(key, meta.(sampleRate := Some(hz)), engine))
  {
    var put := Put(entries, Entry(key, meta, engine));
    var want := Put(entries, Entry(key, meta.(sampleRate := Some(hz)), engine));
    var got := SetSampleRate(put, key, hz);
    assert Keys(put) == Keys(want);
    var i := PositionOf(put, key);
    assert PositionOf(want, key) == i;
    forall j | 0 <= j < |got| ensures got[j] == want[j] {
      if j != i {
        assert put[j].key != key && want[j].key != key;
        assert put[j] == entries[j] && want[j] == entries[j];
      }
    }
  }

  /**
   * The registry, filled once at start-up. `entries` stands for the two
   * module-level dictionaries `voices` and `voice_meta`.
   */
  class VoiceRegistry<E> {
    var entries: seq<Entry<E>>

    ghost predicate Valid()
      reads this
    {
      WellFormed(entries)
    }

    constructor ()
      ensures Valid() && entries == []
    {
      entries := [];
    }

    /**
     * `load_voices`: when the voices directory exists, visits its model files
     * in sorted path order; a file without a config is skipped, a file whose
     * engine fails to load adds nothing, and a loaded file is put in the
     * registry and then given the sample rate its config names, 22050 when
     * the config names none or cannot be read.
     */
    method LoadVoices(dirExists: bool, files: seq<ModelFile<E>>)
      requires Valid()
      modifies this
      ensures Valid()
      ensures entries == if dirExists then LoadAll(old(entries), files) else old(entries)
    {
      if !dirExists {
        return;
      }
      var i := 0;
      while i < |files|
        invariant 0 <= i <= |files|
        invariant WellFormed(entries)
        invariant entries == LoadAll(old(entries), files[..i])
      {
        var file := files[i];
        assert files[..i + 1][..i] == files[..i];
        ghost var before := entries;
        if !file.config.Absent? {
          var key := file.stem;
          match file.engine {
            case Some(engine) =>
              entries := Put(entries, Entry(key, ParseVoiceKey(key), engine));
              entries := SetSampleRate(entries, key, SampleRateOf(file.config));
              PutThenSetSampleRate(before, key, ParseVoiceKey(key), engine, SampleRateOf(file.config));
            case None =>
          }
        }
        assert entries == LoadStep(before, file);
        LoadStepWellFormed(before, file);
        i := i + 1;
      }
      assert files[..|files|] == files;
    }
  }
}
