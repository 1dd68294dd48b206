/**
 * What the read-only endpoints report about the registry: `GET /health` and
 * `GET /api/voices`.
 */
module Endpoints {
  import opened Wrappers
  import opened VoiceKey
  import opened Registry
  import opened Resolve

  /** The JSON body of `GET /health`. */
  datatype HealthReport = HealthReport(
    status: string,
    voicesLoaded: nat,
    availableVoices: seq<string>,
    defaultVoice: string)

  /**
   * `health()`: status `"ok"` when at least one voice is loaded and
   * `"no_voices"` otherwise, the number of voices, their keys in insertion
   * order, and the configured default voice (loaded or not).
   */
  function Health<E>(entries: seq<Entry<E>>, defaultVoice: string): (h: HealthReport)
    ensures h.status == "ok" <==> entries != []
    ensures h.status == "ok" || h.status == "no_voices"
    ensures h.voicesLoaded == |entries| == |h.availableVoices|
    ensures forall i :: 0 <= i < |entries| ==> h.availableVoices[i] == entries[i].key
    ensures h.defaultVoice == defaultVoice
  {
    HealthReport(if entries != [] then "ok" else "no_voices", |entries|, Keys(entries), defaultVoice)
  }

  /** `list_voices()`: the metadata of every loaded voice, in insertion order. */
  function ListVoices<E>(entries: seq<Entry<E>>): (metas: seq<VoiceMeta>)
    ensures |metas| == |entries|
    ensures forall i :: 0 <= i < |entries| ==> metas[i] == entries[i].meta
  {
    seq(|entries|, i requires 0 <= i < |entries| => entries[i].meta)
  }

  /**
   * The health status is `"ok"` exactly when a request that names neither a
   * voice nor a language can be served, whatever the default voice is.
   */
  lemma HealthOkIffResolvable<E>(entries: seq<Entry<E>>, defaultVoice: string)
    requires UniqueKeys(entries)
    ensures Health(entries, defaultVoice).status == "ok"
            <==> ResolveVoice(entries, None, None, defaultVoice).Success?
  {
    assert !Given(None);
  }

  /**
   * In a registry as loading leaves it, the voice list and the health report
   * agree: the list names the voices the report counts, in the same order,
   * and every listed voice carries its parsed metadata and a sample rate.
   */
  lemma ListVoicesAgreesWithHealth<E>(entries: seq<Entry<E>>, defaultVoice: string)
    requires WellFormed(entries)
    ensures var metas := ListVoices(entries);
            var h := Health(entries, defaultVoice);
            && |metas| == h.voicesLoaded
            && (forall i :: 0 <= i < |metas| ==> metas[i].key == h.availableVoices[i])
            && (forall i :: 0 <= i < |metas| ==> metas[i].sampleRate.Some?)
            && (forall i :: 0 <= i < |metas| ==>
                  metas[i] == ParseVoiceKey(h.availableVoices[i]).(sampleRate := metas[i].sampleRate))
  {
    var metas := ListVoices(entries);
    forall i | 0 <= i < |metas|
      ensures metas[i].key == entries[i].key && metas[i].sampleRate.Some?
    {
      assert EntryLoaded(entries[i]);
    }
  }
}
