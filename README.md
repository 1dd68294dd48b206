# Synaplan TTS voice registry, in Dafny

Synaplan TTS is a small HTTP text-to-speech server built on Piper. At start-up it
scans a voices directory for `*.onnx` models and loads each one, together with its
`<model>.onnx.json` config, into a registry of voices. The registry is two
insertion-ordered dictionaries keyed by the model's file stem: `voices` maps a key
to the loaded engine and `voice_meta` maps it to metadata. The metadata is parsed
from the key (`<locale>-<speaker>-<quality>`, such as `en_US-lessac-medium`), and
the sample rate is read from the config. Each synthesis request names a voice key,
a language, both or neither. The server resolves it to one loaded voice by a fixed
precedence, or rejects it with HTTP 503 or 404. `GET /health` and `GET /api/voices`
report on the registry.

This project models that core:

- `text.dfy` (module `Text`): the parts of Python's `str` that the core uses. These
  are `lower`, `strip`, `split` on one character, and the `join` that undoes a split.
- `voice_key.dfy` (module `VoiceKey`): the language table and key parsing.
- `registry.dfy` (module `Registry`): the registry as one sequence of entries. Each
  entry holds a key, its metadata and its engine, which stands for the two
  dictionaries together. The file also holds the start-up scan: the functional
  specification `LoadAll`, and the class `VoiceRegistry` whose `LoadVoices` method
  runs the scan loop.
- `resolve.dfy` (module `Resolve`): voice resolution.
- `endpoints.dfy` (module `Endpoints`): the health report and the voice list.
- `scenarios.dfy` (module `Scenarios`): worked scans and requests.
- `wrappers.dfy` (module `Wrappers`): `Option` and `Result`.

The engine type is a type parameter `E` that the model never looks into. The
configured default voice (`DEFAULT_VOICE`) is a parameter of resolution and of the
health report. The model files the scan finds are an input, given in the order the
loop visits them.

## Model

| member | source | states |
|---|---|---|
| VoiceKey.LanguageOf | server.py:79 | a locale in the table gets the table's name and code; any other locale gets its own text as name; either way the code is the lower-cased first two characters of the locale |
| VoiceKey.LanguageMapCodes | server.py:50-64 | every language code in the table is the lower-cased first two characters of its locale, so the table and the fallback agree on codes |
| VoiceKey.ParseVoiceKey | server.py:73-87 | the locale is the dash-free prefix of the key that ends at the first `-`; language and name come from the table, or fall back to the locale; the key is kept and no sample rate is set |
| VoiceKey.ParseJoinedKey | server.py:75-78 | a key made of dash-free parts joined by `-` parses to its first part as locale, its second as speaker (`"default"` if missing) and its third as quality (`"unknown"` if missing); further parts are ignored |
| VoiceKey.ParseDefaultVoiceKey | server.py:41 | the usual default key `en_US-lessac-medium` parses to locale `en_US`, language `en`, name `English (US)`, speaker `lessac` and quality `medium` |
| Text.Split | server.py:75 | `str.split` always yields at least one piece, and no piece holds the separator |
| Text.SplitFirst | server.py:75-76 | the first piece is the prefix before the first separator; there is a single piece exactly when the string holds no separator |
| Text.JoinSplit | server.py:75 | joining the pieces of a split with the separator gives back the string |
| Text.SplitJoin | server.py:75 | splitting the join of separator-free pieces gives back the pieces |
| Text.Lower | server.py:79 | lower-casing keeps the length, maps each character, and leaves no upper-case letter |
| Text.StripIsSlice | server.py:183 | `strip` removes only whitespace, and only at the two ends; what remains is a contiguous piece with no whitespace at either end |
| Text.StripUnpadded | server.py:183 | stripping a string without surrounding whitespace leaves it unchanged |
| Registry.Put | server.py:111-112 | assigning a key in the dictionaries keeps an existing key's place or appends a new key; the key then maps to the new entry; other entries are untouched and keys stay unique |
| Registry.PutKeepsOthers | server.py:111-112 | after an assignment, every other key is present exactly when it was before, and maps to the same entry |
| Registry.SetSampleRate | server.py:118-122 | setting a voice's sample rate changes only that voice's metadata, and the keys stay the same |
| Registry.PutThenSetSampleRate | server.py:111-122 | storing the parsed metadata and then its sample rate equals storing the finished entry in one step |
| Registry.SampleRateOf | server.py:114-122 | a config that names `audio.sample_rate` gives that rate; a config without it, or one that cannot be read, gives 22050 |
| Registry.LoadAllWellFormed | server.py:98-130 | the scan keeps keys unique and gives every voice its parsed metadata plus a sample rate |
| Registry.LoadAllSkipsRejected | server.py:98-130 | a file without a config, or one whose engine fails to load, adds nothing: scanning all files equals scanning only the accepted ones |
| Registry.LoadAllKeys | server.py:98-112 | with distinct stems, the scan's keys are the stems of the accepted files in scan order |
| Registry.LoadAllEntry | server.py:108-122 | every accepted file ends up under its stem, with metadata parsed from the stem, its config's sample rate (default 22050) and its engine |
| Registry.LoadAllOnlyAccepted | server.py:98-130 | a key that is no accepted file's stem is not added by the scan |
| Registry.VoiceRegistry.LoadVoices | server.py:90-130 | a missing directory leaves the registry as it was; otherwise the loop leaves exactly `LoadAll` of the files, and the registry stays well formed |
| Resolve.Status | server.py:168-191 | an empty registry is the only 503; an unknown key and an unmatched language are 404 |
| Resolve.FirstMatch | server.py:184-186 | the result is the first voice, in insertion order, whose language code or lower-cased locale equals the requested language; none means no voice matches |
| Resolve.ResolveVoice | server.py:164-199 | (1) an empty registry fails with 503 whatever is asked; (2) a given key resolves to exactly that voice, or fails with 404 listing the keys, with no fallback; (3) a given language resolves to the first matching voice, or fails with 404 listing the language codes, exactly when none matches, with no fallback; (4, 5) with neither given, the result is the default when it is loaded, otherwise the first loaded voice; every success names a loaded voice with that voice's engine |
| Resolve.NormalizeIdempotent | server.py:183 | normalizing a language twice gives the same result as normalizing it once |
| Resolve.LanguageNormalized | server.py:182-186 | case and surrounding whitespace in the requested language do not change which voice is picked, or whether one is |
| Endpoints.Health | server.py:322-329 | status is `"ok"` exactly when a voice is loaded, otherwise `"no_voices"`; the count and the key list match the registry in order; the default is echoed even when it is not loaded |
| Endpoints.HealthOkIffResolvable | server.py:193-199 | health is `"ok"` exactly when a request with no voice and no language can be served |
| Endpoints.ListVoices | server.py:333-335 | the voice list is the metadata of every voice, in insertion order |
| Endpoints.ListVoicesAgreesWithHealth | server.py:322-335 | in a registry left by loading, the voice list and the health report name the same keys in the same order, and every listed voice has its parsed metadata and a sample rate |
| Scenarios.ScanExample | server.py:98-130 | over four files (one with no `sample_rate`, one naming a rate, one without config, one that fails to load), only the first two load, in order, the first with 22050 Hz |
| Scenarios.TwoVoiceByKey | server.py:172-179 | in an English-then-German registry, the German key picks the German voice, and any other key fails with 404 whatever language comes with it |
| Scenarios.TwoVoiceByLanguage | server.py:181-186 | a language only the German voice answers to picks it, although the default comes first |
| Scenarios.TwoVoiceDefault | server.py:193-199 | with neither voice nor language, the default is picked, or the first voice when the default is not loaded |
| Scenarios.EmptyRegistryExample | server.py:168-169 | an empty registry answers every request with 503 and reports `"no_voices"` with no voices |

## Left out

- Synthesis (`_synthesize_wav`, `_stream_opus`), the thread pool, the ffmpeg pipe and the HTTP endpoints that use them are not modelled. They are I/O and calls into Piper and ffmpeg.
- FastAPI and pydantic request validation, the floating-point synthesis parameters, CORS, logging and reading environment variables are not modelled. `DEFAULT_VOICE` is a parameter instead.
- Directory listing, `sorted(glob(...))`, file existence and JSON parsing are inputs. The scan takes the model files in loop order, and each file's config arrives already read as `ConfigFile`. Each engine is `Some` when loading succeeds and `None` when it raises.
- The guard against `.onnx.json` suffixes at server.py:99-101 is not modelled. A `*.onnx` glob never returns such a path, so the guard never fires.
- Registry.SampleRateOf: the sample rate is an integer. The server stores whatever JSON value `audio.sample_rate` holds, and a config whose `audio` is not an object counts as unreadable. Nothing in the code checks that the rate is positive, and the model does not require it either.
- Text.Lower: `str.lower` is modelled on ASCII letters only. Python also lower-cases other Unicode letters.
- Resolve.ResolveVoice: the 404 details carry their facts, not the message text. These facts are the key list for an unknown voice and the set of language codes for an unmatched language. The server prints the codes sorted and comma-joined.
- The two dictionaries `voices` and `voice_meta` are modelled as one sequence of entries. The server always writes them together, so they hold the same keys in the same order.
- Scenarios.TwoVoiceByLanguage: the requested language is a parameter and not the literal `"de"`. The example needs only that it is already normalized.
