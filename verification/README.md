# cypress-playback: the recording and replay engine, modelled in Dafny

cypress-playback records the HTTP responses a Cypress test receives and plays
them back on later runs. This project models the engine's core as immutable
datatypes and pure functions:

- **Fingerprints.**
  - `getMatcherAsString` and `getRequestMatcherId` give a route matcher that a test declares its identity. The matcher can be a string, a RegExp or an object.
  - `getInterceptedResponseId` fingerprints one concrete request. It takes the URL parts, the method and the body, drops the ignored ones, joins them with `::` and hashes the result.
  - `stringifyBody` is a JSON encoder that deletes properties by their dotted or bracketed path.
- **The base64 codec** of `arrayBufferFns`, which implements section 4 of RFC 4648. Its decoder first drops every character outside the alphabet. Section 3.3 of RFC 4648 permits that leniency only when the referencing specification asks for it.
- **The four entities.**
  - `PlaybackResponse` is one response. Its body carries a body-type tag, and each tag has its own codec.
  - `PlaybackResponseCollection` is an ordered replay list with a `hits` cursor.
  - `PlaybackRequestMatcher` is a fingerprint-keyed table of responses with hit counts. It also keeps an in-flight counter, a stale flag and an `isPending` predicate.
  - `PlaybackRequestMap` holds the matchers one test declares, in insertion order. It handles sealing, version-checked deserialization and the pending aggregate.
- **Mode and metadata.**
  - `getPlaybackMode` and `isPlaybackMode` are small decision tables.
  - `getTestMetadata` walks the Mocha suite tree and joins the titles.

JavaScript values are modelled by one datatype, `JsValues.Value`. Its cases are:

- `undefined` and `null`;
- booleans and integers;
- strings;
- arrays;
- plain objects, with their members kept in insertion order;
- RegExps;
- `ArrayBuffer`s, as byte sequences;
- functions.

A throw becomes the `Err` case of a `Result`, and `Errors.Error` names each message the source throws.

Two external dependencies come in through `Env`, a record passed as a parameter:

- the MD5 digest (`blueimp-md5`), as a function from string to string. Nothing assumes it is collision-free: the model only claims that equal pre-images give equal ids.
- `new URL(...)`, as a partial function from the request's `url` to its five parts (protocol, hostname, port, pathname, search).

`Json.Stringify` is a model of `JSON.stringify`. `JsonParse.Parse` is a JSON parser written for this project, and `JsonParse.RoundTrip` proves that parsing the output of `Stringify` gives the value back, normalised.

Module layout:

- One module per source file.
- `KeyedList` models a JavaScript `Map` as a list of values in insertion order, each filed under the key a given function reads off it. The request map keeps its matchers in one, keyed by matcher id.
- `ResponseTable` is the matcher's response table: a `KeyedList` of entries keyed by request fingerprint, with the hit counting on top.
- `Traverse` models a `forEach` whose callback may throw.

## Model

| member | source | states |
|---|---|---|
| ArrayBufferFns.DigitChar | lib/commands/functions/arrayBufferFns.js:55-67 | a 6-bit value is encoded as a character of the base64 alphabet |
| ArrayBufferFns.DigitValue | lib/commands/functions/arrayBufferFns.js:11-23 | every character code decodes to a 6-bit value; characters outside the alphabet decode to 0 |
| ArrayBufferFns.DigitCharIsAlphabet | lib/commands/functions/arrayBufferFns.js:55-67 | uint6ToBase64 sends each of 0..63 to the character at that position in table 1 of RFC 4648: A-Z, a-z, 0-9, `+`, `/` |
| ArrayBufferFns.DigitValueOfDigitChar | lib/commands/functions/arrayBufferFns.js:11-23 | base64ToUint6 is a left inverse of uint6ToBase64 on 0..63 |
| ArrayBufferFns.DigitCharOfDigitValue | lib/commands/functions/arrayBufferFns.js:11-23 | uint6ToBase64 undoes base64ToUint6 on the 64 alphabet characters, so the two are inverse bijections |
| ArrayBufferFns.AlphabetIsKeptClass | lib/commands/functions/arrayBufferFns.js:32 | the character class the decoder keeps, `[A-Za-z0-9+/]`, is exactly the alphabet |
| ArrayBufferFns.Filter | lib/commands/functions/arrayBufferFns.js:32 | the decoder's clean-up keeps only alphabet characters, and each of them comes from the input; it never lengthens the text, leaves alphabet-only text unchanged, and empties a text with no alphabet character |
| ArrayBufferFns.FilterOne | lib/commands/functions/arrayBufferFns.js:32 | a single character survives the clean-up exactly when it is in the base64 alphabet |
| ArrayBufferFns.Decode | lib/commands/functions/arrayBufferFns.js:30-48 | decoding yields (3·L+1) div 4 bytes, where L is the number of alphabet characters in the input; a text with no alphabet character decodes to no bytes |
| ArrayBufferFns.DecodeSkipsNoise | lib/commands/functions/arrayBufferFns.js:30-48 | characters outside the alphabet, such as line feeds, inserted anywhere in the input leave the decoded bytes unchanged |
| ArrayBufferFns.EncodeShape | lib/commands/functions/arrayBufferFns.js:74-97 | the encoding of n bytes is alphabet characters, then `==` if n mod 3 = 1, `=` if n mod 3 = 2, and no padding otherwise |
| ArrayBufferFns.EncodeLength | lib/commands/functions/arrayBufferFns.js:74-97 | n bytes encode to 4·⌈n/3⌉ characters; no bytes encode to the empty text |
| ArrayBufferFns.FilterEncode | lib/commands/functions/arrayBufferFns.js:32 | the decoder's filter removes exactly the padding of an encoding |
| ArrayBufferFns.DecodeUnpadded | lib/commands/functions/arrayBufferFns.js:30-48 | decoding the unpadded characters of an encoding gives back the bytes, including the last partial group |
| ArrayBufferFns.RoundTrip | lib/commands/functions/tests/arrayBufferFns.spec.js:6-46 | decode(encode(b)) = b for every byte sequence b |
| ArrayBufferFns.ArrayBufferToBase64 | lib/commands/functions/arrayBufferFns.js:74-97 | the source's single loop, which uses a 24-bit accumulator, a mod-3 position, trimming and padding, computes the reference encoding |
| ArrayBufferFns.Base64ToArrayBuffer | lib/commands/functions/arrayBufferFns.js:30-48 | the source's nested loops, which fill a preallocated byte array from the filtered text, compute the reference decoding |
| ArrayBufferFns.EmojiEncodes | lib/commands/functions/tests/arrayBufferFns.spec.js:6-22 | the bytes 240,159,152,131,240,159,152,132 encode to `8J+Yg/CfmIQ=` |
| ArrayBufferFns.EmojiDecodes | lib/commands/functions/tests/arrayBufferFns.spec.js:24-37 | `8J+Yg/CfmIQ=` decodes to those eight bytes |
| Json.Stringify | lib/commands/functions/stringifyBody.js:25-49 | JSON encoding produces text for every value except `undefined` and functions |
| JsonParse.Parse | lib/commands/entities/PlaybackResponse.js:43 | JSON parsing succeeds exactly when the text, apart from surrounding white space, is one JSON value; otherwise it fails with a syntax error; what it yields is JSON data: null, booleans, numbers, strings, and arrays and objects of those, with no key repeated |
| JsonParse.ParseRestringifies | lib/commands/entities/PlaybackResponse.js:43 | a parsed value always stringifies, and parsing that text gives the same value again |
| JsonParse.RoundTrip | lib/commands/entities/PlaybackResponse.js:27-28 | parsing the JSON text of any value whose object keys are unique gives the value back, after JSON's own normalisation: RegExps become `{}`, and `undefined` or function members are dropped |
| JsonParse.DataRoundTrip | lib/commands/entities/PlaybackResponse.js:27-28 | for plain JSON data, parsing its JSON text gives back exactly the same value |
| JsonParse.NormalizeText | lib/commands/entities/PlaybackResponse.js:27-28 | normalising a value does not change its JSON text |
| StringifyBody.Segment | lib/commands/functions/stringifyBody.js:1-8 | a key that matches `^\w+$` is its own path segment; any other key becomes `[<JSON string of the key>]` |
| StringifyBody.PathOf | lib/commands/functions/stringifyBody.js:33-37 | a word key is joined to a non-empty parent path with `.`; a bracketed segment is appended with no dot; at the root the path is the segment alone |
| StringifyBody.IndexKey | lib/commands/functions/stringifyBody.js:33-37 | an array index is a word key, so array elements are addressed as dotted segments such as `array.0` |
| StringifyBody.StringifyBody | lib/commands/functions/stringifyBody.js:17-50 | a string body is returned unchanged whatever the removal list; any other body has text unless it is `undefined` or a function |
| StringifyBody.EncodeIsStringifyPruned | lib/commands/functions/stringifyBody.js:25-49 | the path-tracking encoder equals plain JSON encoding of the value after pruning, so removal is the only difference |
| StringifyBody.StringifyBodyIsPruned | lib/commands/functions/stringifyBody.js:25-49 | a non-string body is encoded as the JSON text of its pruned form; the root itself is never removed |
| StringifyBody.Prune | lib/commands/functions/stringifyBody.js:39-45 | pruning keeps the shape: arrays stay arrays of the same length, objects stay objects, and scalars are untouched |
| StringifyBody.DropFirst | lib/commands/functions/stringifyBody.js:39-41 | a property whose path is in the removal list is omitted together with its whole subtree |
| StringifyBody.KeepFirst | lib/commands/functions/stringifyBody.js:39-47 | a property whose path is not in the removal list stays in place, and its value is pruned under that path |
| StringifyBody.NothingRemoved | lib/commands/functions/stringifyBody.js:25-48 | with an empty removal list the output equals the plain JSON encoding |
| StringifyBody.PruneNothing | lib/commands/functions/stringifyBody.js:39-41 | pruning with an empty removal list changes nothing |
| StringifyBody.PruneIdempotent | lib/commands/functions/stringifyBody.js:39-41 | pruning twice with the same list removes nothing more |
| StringifyBody.EncodeDefined | lib/commands/functions/stringifyBody.js:25-49 | the encoder gives no text exactly for `undefined` and function values |
| StringifyBody.StringExample | lib/commands/functions/tests/stringifyBody.spec.js:47-49 | `"body-string"` is returned verbatim |
| StringifyBody.RemovalExample | lib/commands/functions/tests/stringifyBody.spec.js:6-44 | the nested example body, with `foo`, `nested1.nested2.baz`, `array.0.quux`, `array.0["A Nested Array"].0.waldo` and `array.1.xyzzy` removed, encodes as the expected JSON text; unlisted properties keep their order |
| StringifyBody.ExamplePruned | lib/commands/functions/tests/stringifyBody.spec.js:26-44 | the pruned example body is exactly the expected object |
| StringifyBody.NestedArrayPath | lib/commands/functions/tests/stringifyBody.spec.js:6-24 | the key `A Nested Array` is addressed in brackets, appended without a dot |
| MatcherString.GetMatcherAsString | lib/commands/functions/getMatcherAsString.js:1-10 | a string is returned verbatim; a RegExp becomes `/source/flags`; any other object becomes its JSON text; any other type fails with an error naming its `typeof` |
| MatcherString.RegExpBeforeObject | lib/commands/functions/getMatcherAsString.js:4-7 | a RegExp is an object whose JSON text is `{}`, yet it gets its `/source/flags` text, so the RegExp test must come first |
| MatcherString.StringExample | lib/commands/functions/tests/getMatcherAsString.spec.js:6 | the string `/` is its own text |
| MatcherString.RegExpExample | lib/commands/functions/tests/getMatcherAsString.spec.js:7 | the RegExp `/\//` becomes `/\//` |
| MatcherString.ObjectExample | lib/commands/functions/tests/getMatcherAsString.spec.js:8 | `{ stuff: true }` becomes `{"stuff":true}` |
| MatcherString.NumberExample | lib/commands/functions/tests/getMatcherAsString.spec.js:17-20 | the number 3 fails with "Unsupported matcher type: number" |
| RequestMatcherId.PreImage | lib/commands/functions/getRequestMatcherId.js:15-19 | the hash input fails exactly when the matcher has no text, and then with the same error |
| RequestMatcherId.GetRequestMatcherId | lib/commands/functions/getRequestMatcherId.js:14-21 | the id is the digest of the pre-image; an unsupported matcher type propagates its error |
| RequestMatcherId.PreImageParts | lib/commands/functions/getRequestMatcherId.js:15-19 | the pre-image is the method, the matcher text and the options' JSON text, joined by `::` in that order |
| RequestMatcherId.PreImageOfTexts | lib/commands/functions/getRequestMatcherId.js:15-19 | for a string method and a string matcher, the pre-image is exactly `method::matcher::json` given the options' JSON text |
| RequestMatcherId.SameDeclarationSameId | lib/commands/functions/getRequestMatcherId.js:14-21 | declarations with equal matcher text and equal options text get equal ids, which lets the map revive a matcher instead of adding a duplicate |
| RequestMatcherId.OptionsSeparate | lib/commands/functions/getRequestMatcherId.js:18 | declarations that differ only in options text have different pre-images |
| RequestMatcherId.Example | lib/commands/functions/tests/getRequestMatcherId.spec.js:19-26 | `GET`, `matcher-as-string` and `{options: true}` give the pre-image `GET::matcher-as-string::{"options":true}` |
| InterceptedResponseId.Includes | lib/commands/functions/getInterceptedResponseId.js:33 | `ignoredAttributes.includes(name)` is array membership for an array, substring search for a string, and a TypeError for anything else |
| InterceptedResponseId.UrlPart | lib/commands/functions/getInterceptedResponseId.js:41-46 | an empty URL part contributes nothing; a non-empty one contributes itself |
| InterceptedResponseId.BodyElement | lib/commands/functions/getInterceptedResponseId.js:51-63 | a null or undefined body fails with "Request body must be provided."; a string body is used verbatim; any other body is JSON-encoded |
| InterceptedResponseId.Element | lib/commands/functions/getInterceptedResponseId.js:36-64 | the method contributes `request.method` as it is; only the body can fail, and it fails exactly when the body is null or undefined |
| InterceptedResponseId.GetInterceptedResponseId | lib/commands/functions/getInterceptedResponseId.js:27-71 | the id is the digest of the contributed elements joined by `::`; a URL that does not parse and a missing request fail |
| InterceptedResponseId.ElementsAreContributions | lib/commands/functions/getInterceptedResponseId.js:31-68 | with an array of ignores the walk over the attributes fails only for a missing body that is not ignored, and otherwise yields each attribute's contribution in order |
| InterceptedResponseId.DefaultContributions | lib/commands/functions/getInterceptedResponseId.js:9-17 | the contributions come in the fixed order protocol, hostname, port, pathname, search, method, body |
| InterceptedResponseId.FingerprintShape | lib/commands/functions/getInterceptedResponseId.js:31-70 | the id is the digest of the seven contributions joined by `::`, or the missing-body error |
| InterceptedResponseId.BodyRequiredExactly | lib/commands/functions/getInterceptedResponseId.js:51-55 | a parsed request fails exactly when its body is null or undefined and `body` is not ignored, and the error is "Request body must be provided." |
| InterceptedResponseId.IgnoredAttributesDoNotMatter | lib/commands/functions/getInterceptedResponseId.js:33-35 | two requests that agree on every attribute that is not ignored get the same id |
| InterceptedResponseId.IgnoredBodyMayBeMissing | lib/commands/functions/getInterceptedResponseId.js:33-35 | when `body` is ignored, a request with no body still gets an id |
| InterceptedResponseId.StringBodyExample | lib/commands/functions/tests/getInterceptedResponseId.spec.js:26-31 | the example request hashes `https:::example.com::4444::/::?foo=bar::GET::body-string` |
| InterceptedResponseId.JsonBodyExample | lib/commands/functions/tests/getInterceptedResponseId.spec.js:33-38 | an object body is hashed as its JSON text `{"body":true}` |
| InterceptedResponseId.IgnoredSearchExample | lib/commands/functions/tests/getInterceptedResponseId.spec.js:41-48 | with `search` ignored, the query string is left out of the pre-image |
| InterceptedResponseId.MissingBodyExample | lib/commands/functions/tests/getInterceptedResponseId.spec.js:50-54 | a request without a body fails with "Request body must be provided." |
| PlaybackResponse.GetResponseBodyType | lib/commands/entities/PlaybackResponse.js:5-19 | an object with a numeric `byteLength` is `ArrayBuffer` (this test comes first); any other object, null included, is `json`; a string, number or boolean is named by its `typeof`; anything else fails with "Unsupported body type" |
| PlaybackResponse.SerializeBody | lib/commands/entities/PlaybackResponse.js:21-34 | a null tag writes `undefined`; `ArrayBuffer` writes base64; `json` writes JSON text; the primitive tags write the body unchanged; an unknown tag fails |
| PlaybackResponse.DeserializeBody | lib/commands/entities/PlaybackResponse.js:36-49 | applies the inverse of each tag's codec: base64 decode, JSON parse or identity; a null tag reads `undefined`; an unknown tag fails |
| PlaybackResponse.Build | lib/commands/entities/PlaybackResponse.js:98-107 | a falsy body leaves the tag null; a truthy body gets the tag its type names, or the constructor fails with the body-type error |
| PlaybackResponse.Serialize | lib/commands/entities/PlaybackResponse.js:115-123 | emits the five fields statusCode, statusMessage, body, bodyType and headers, in that order, with the body written by its tag's codec |
| PlaybackResponse.Deserialize | lib/commands/entities/PlaybackResponse.js:125-137 | reads the five fields back and decodes the body by its tag; null data is a TypeError |
| PlaybackResponse.NewResponse | lib/commands/entities/PlaybackResponse.js:92-113 | one argument deserializes, four arguments build, and any other count fails with "Invalid number of arguments" |
| PlaybackResponse.BodyRoundTrip | lib/commands/entities/PlaybackResponse.js:21-49 | the body codec round-trips for every tag: a string, number, boolean or byte body comes back unchanged, a JSON body comes back normalised, and a falsy body comes back as `undefined` |
| PlaybackResponse.JsonBodyRoundTrip | lib/commands/entities/PlaybackResponse.js:27-28 | an array, object or RegExp body is tagged `json`, stored as its JSON text and read back as its normalised form |
| PlaybackResponse.SerializedFields | lib/commands/entities/PlaybackResponse.js:115-123 | statusCode, statusMessage, bodyType and headers are stored unchanged, and the body as its encoded form |
| PlaybackResponse.SerializeThenDeserialize | lib/commands/entities/PlaybackResponse.js:115-137 | when the body codec round-trips, deserialize(serialize(r)) is r with the restored body |
| PlaybackResponse.SerializeRoundTrip | lib/commands/entities/PlaybackResponse.js:92-137 | a response built from its parts comes back from serialize and deserialize with the same status, tag and headers, and with the body restored |
| PlaybackResponse.PosingObjectIsEmptied | lib/commands/entities/PlaybackResponse.js:8-11 | a plain object that carries a numeric `byteLength` is tagged `ArrayBuffer` and stored as the encoding of no bytes |
| PlaybackResponse.StoredJsonIsStable | lib/commands/entities/PlaybackResponse.js:36-49 | JSON text read from a playback file is written back identically |
| PlaybackResponse.SerializeJsonExample | lib/commands/entities/tests/PlaybackResponse.spec.js:117-121 | a JSON body is stored as `{"foo":"bar"}` with tag `json` |
| PlaybackResponse.SerializeStringExample | lib/commands/entities/tests/PlaybackResponse.spec.js:117-121 | a string body is stored verbatim with tag `string` |
| PlaybackResponse.SerializeBufferExample | lib/commands/entities/tests/PlaybackResponse.spec.js:117-121 | the bytes of `cheese` are stored as `Y2hlZXNl` with tag `ArrayBuffer` |
| PlaybackResponse.DeserializeJsonExample | lib/commands/entities/tests/PlaybackResponse.spec.js:77-81 | stored JSON text reads back as the object |
| PlaybackResponse.DeserializeStringExample | lib/commands/entities/tests/PlaybackResponse.spec.js:77-81 | a stored string reads back as it is |
| PlaybackResponse.DeserializeBufferExample | lib/commands/entities/tests/PlaybackResponse.spec.js:92-94 | `Y2hlZXNl` reads back as the bytes of `cheese` |
| PlaybackResponse.NoArgumentsExample | lib/commands/entities/tests/PlaybackResponse.spec.js:70-73 | the constructor with no arguments fails with "Invalid number of arguments: 0" |
| ResponseCollection.FromRequest | lib/commands/entities/PlaybackResponseCollection.js:36-43 | a truthy request sets id to its fingerprint and url to its URL; a falsy one leaves them unset; either way there are no hits and no responses |
| ResponseCollection.AddHit | lib/commands/entities/PlaybackResponseCollection.js:50-52 | raises `hits` by exactly one and changes nothing else |
| ResponseCollection.AddResponse | lib/commands/entities/PlaybackResponseCollection.js:60-62 | appends exactly one response at the end, leaves the earlier ones and `hits` untouched, and keeps `hits <= responses.length` |
| ResponseCollection.GetNextResponse | lib/commands/entities/PlaybackResponseCollection.js:67-77 | fails, naming the URL and hit count, exactly when every response has been handed out; otherwise returns `responses[hits]` and raises `hits` by one |
| ResponseCollection.SerializeCollection | lib/commands/entities/PlaybackResponseCollection.js:79-85 | emits id, url and the serialized responses in their order |
| ResponseCollection.DeserializeCollection | lib/commands/entities/PlaybackResponseCollection.js:87-98 | restores id, url and the responses in their order, with hits 0; data without a responses array is a TypeError |
| ResponseCollection.NewCollection | lib/commands/entities/PlaybackResponseCollection.js:30-48 | one argument deserializes, two build from a request, any other count fails with "Invalid number of arguments"; a new collection has hits 0 |
| ResponseCollection.ReplayInOrder | lib/commands/entities/PlaybackResponseCollection.js:67-77 | k calls in a row succeed exactly when k responses are left, hand out the next k responses in recorded order, and advance `hits` by k |
| ResponseCollection.RecordThenReplay | lib/commands/entities/PlaybackResponseCollection.js:60-77 | a response added once every earlier one is used is the next one handed out, and the call after it fails |
| ResponseCollection.CollectionRoundTrip | lib/commands/entities/PlaybackResponseCollection.js:79-98 | a collection of stable responses deserializes from its serialization with the same id, url and responses, and with hits back at 0 |
| ResponseCollection.BuiltIsStable | lib/commands/entities/PlaybackResponse.js:92-137 | a response built from a body that survives its codec is stable |
| ResponseCollection.ThreeResponsesExample | lib/commands/entities/tests/PlaybackResponseCollection.spec.js:167-193 | a collection of r1, r2, r3 hands them out in order and then fails with three hits |
| ResponseCollection.NoArgumentsExample | lib/commands/entities/tests/PlaybackResponseCollection.spec.js:64-67 | the constructor with no arguments fails |
| KeyedList.Find | lib/commands/entities/PlaybackRequestMatcher.js:120-121 | `Map.get` finds a value filed under the key it was asked for; the matcher's response table is a `KeyedList` keyed by fingerprint (`ResponseTable.EntryId`) |
| KeyedList.FindNone | lib/commands/entities/PlaybackRequestMatcher.js:112 | `Map.has` fails exactly when no value is filed under that key |
| KeyedList.Put | lib/commands/entities/PlaybackRequestMatcher.js:115 | `Map.set` appends a value under a new key, and replaces in place the value under a known key |
| KeyedList.FindAfterPut | lib/commands/entities/PlaybackRequestMatcher.js:115 | after a set, the key that was set reads the new value and every other key reads as before |
| KeyedList.PutKeepsDistinct | lib/commands/entities/PlaybackRequestMatcher.js:115 | a set keeps the keys unique |
| ResponseTable.CountHit | lib/commands/entities/PlaybackRequestMatcher.js:117 | counting a hit keeps every entry in place and leaves the table alone when the fingerprint is unknown |
| ResponseTable.CountHitIsPut | lib/commands/entities/PlaybackRequestMatcher.js:113-117 | counting a hit on the entry under a key is the same as setting that key to the entry with one more hit |
| ResponseTable.FindCounted | lib/commands/entities/PlaybackRequestMatcher.js:117 | the entry filed under the fingerprint that is hit reads back with one more hit |
| ResponseTable.FindNotCounted | lib/commands/entities/PlaybackRequestMatcher.js:117 | every other entry reads as before |
| ResponseTable.TotalAfterCount | lib/commands/entities/PlaybackRequestMatcher.js:136-138 | a hit on a known fingerprint raises the total hits by exactly one |
| ResponseTable.File | lib/commands/entities/PlaybackRequestMatcher.js:112-117 | filing a response reuses the entry for a known fingerprint, and otherwise adds one at the end |
| ResponseTable.FileIsPut | lib/commands/entities/PlaybackRequestMatcher.js:112-117 | filing is `has`, then `Map.set` of a new entry with no hits when the fingerprint is new, then `addHit` on the entry under it |
| ResponseTable.FileKnown | lib/commands/entities/PlaybackRequestMatcher.js:112-113 | filing under a known fingerprint keeps the stored response and raises its hits by one |
| ResponseTable.FileNew | lib/commands/entities/PlaybackRequestMatcher.js:114-117 | filing under a new fingerprint stores the response with one hit |
| ResponseTable.FileCountsOne | lib/commands/entities/PlaybackRequestMatcher.js:112-117 | filing raises the total hits by exactly one |
| ResponseTable.Recorded | lib/commands/entities/PlaybackRequestMatcher.js:149-150 | keeps exactly the entries that have hits |
| ResponseTable.Unused | lib/commands/entities/PlaybackRequestMatcher.js:163-166 | a restored entry keeps its fingerprint and response and starts with no hits |
| KeyedList.PutAllFresh | lib/commands/entities/PlaybackRequestMatcher.js:163-166 | setting values whose keys are all new and unique appends them in order |
| KeyedList.FindAfterPutAll | lib/commands/entities/PlaybackRequestMap.js:172-175 | after a run of sets, a key reads the last value set under it, or what it read before when none was |
| KeyedList.PutAllKeepsLastAll | lib/commands/entities/PlaybackRequestMap.js:172-175 | a run of sets into an empty map files every key, holds the last value set under each, and holds nothing that was not set |
| RequestMatcher.FromDeclaration | lib/commands/entities/PlaybackRequestMatcher.js:65-78 | a non-string method or a falsy matcher fails with "Invalid arguments"; otherwise the matcher gets its id, its matcher text, `minTimes` (default 1), its ignored attributes (default none), no responses, nothing in flight, and is not stale |
| RequestMatcher.NewMatcher | lib/commands/entities/PlaybackRequestMatcher.js:57-83 | one argument deserializes, two or three declare (a missing options defaults to `{}`), and any other count fails with "Unsupported number of arguments" |
| RequestMatcher.NotifyRequestStarted | lib/commands/entities/PlaybackRequestMatcher.js:85-88 | raises the in-flight count by one, clears `stale`, and changes nothing else |
| RequestMatcher.NotifyRequestCompleted | lib/commands/entities/PlaybackRequestMatcher.js:90-95 | fails with "No requests inflight." exactly when nothing is in flight, and otherwise lowers the count by exactly one |
| RequestMatcher.StartThenComplete | lib/commands/entities/PlaybackRequestMatcher.js:85-95 | a request that starts and then completes leaves the count where it was, and the matcher is no longer stale |
| RequestMatcher.AddResponse | lib/commands/entities/PlaybackRequestMatcher.js:97-118 | files the response under its request's fingerprint, reusing an existing entry, and raises that entry's hits by one; the other entries and fields are unchanged; a bad body or fingerprint fails |
| RequestMatcher.AddResponseAsWritten | lib/commands/entities/PlaybackRequestMatcher.js:104-111 | the source's six-argument construction always fails with "Invalid number of arguments: 6" |
| RequestMatcher.AsWrittenNeverRecords | lib/commands/entities/PlaybackRequestMatcher.js:104-111 | for a response the corrected matcher would record, the source as written fails instead |
| RequestMatcher.GetResponse | lib/commands/entities/PlaybackRequestMatcher.js:120-126 | a known fingerprint returns its entry with one more hit; an unknown one returns nothing and changes nothing |
| RequestMatcher.GetResponseCounts | lib/commands/entities/PlaybackRequestMatcher.js:120-126 | after a hit on a known fingerprint that entry reads back as returned, every other entry is unchanged, and the total rises by one |
| RequestMatcher.PendingUntilMinTimes | lib/commands/entities/PlaybackRequestMatcher.js:128-140 | a matcher that is not stale and has nothing in flight is pending exactly while its total hits are below `minTimes` |
| RequestMatcher.HitsNeverAddPending | lib/commands/entities/PlaybackRequestMatcher.js:112-140 | recording or serving a response never makes a matcher pending |
| RequestMatcher.NumberOf | lib/commands/entities/PlaybackRequestMatcher.js:139 | the comparison `hits < minTimes` reads a numeric `minTimes` as it is, `null` as 0, a boolean as 0 or 1, and an empty or all-digit string as its decimal value; `undefined`, an object, a RegExp, a function or a buffer read as NaN; an array reads through its `join` text, so `[]` is 0, `[x]` is what `x` reads as, and two or more elements are NaN |
| RequestMatcher.ArrayMinTimes | lib/commands/entities/PlaybackRequestMatcher.js:139 | a `minTimes` of `[2]` keeps a live matcher pending until two hits, while `[]` and `[1, 2]` never keep it pending |
| RequestMatcher.SerializeEntry | lib/commands/entities/PlaybackRequestMatcher.js:151 | a stored entry is the serialized response preceded by its fingerprint |
| RequestMatcher.SerializeMatcher | lib/commands/entities/PlaybackRequestMatcher.js:142-153 | emits id, method, matcher, minTimes, ignoredAttributes and the serialized entries that have hits, in that order |
| RequestMatcher.ParseEntries | lib/commands/entities/PlaybackRequestMatcher.js:163-166 | each stored entry becomes a response under its id with no hits, in order; a bad entry fails |
| RequestMatcher.Restore | lib/commands/entities/PlaybackRequestMatcher.js:163-166 | restoring succeeds exactly when every stored entry parses; the restored entries have unique fingerprints and no hits |
| RequestMatcher.RestoreKeepsLast | lib/commands/entities/PlaybackRequestMatcher.js:163-166 | the restored table files every stored fingerprint, holds the last entry parsed under each, and holds nothing else |
| RequestMatcher.DeserializeMatcher | lib/commands/entities/PlaybackRequestMatcher.js:155-167 | restores id, method, matcher, minTimes and ignored attributes, marks the matcher stale with nothing in flight, and fails with a TypeError when there is no responses array |
| RequestMatcher.EntryRoundTrip | lib/commands/entities/PlaybackRequestMatcher.js:142-167 | a stored entry reads back as the same fingerprint and response, with no hits |
| RequestMatcher.RestoreUsed | lib/commands/entities/PlaybackRequestMatcher.js:142-167 | entries with unique fingerprints and stable responses come back from disk unchanged except for their hits |
| RequestMatcher.MatcherRoundTrip | lib/commands/entities/PlaybackRequestMatcher.js:142-167 | a matcher deserializes from its serialization with the same fields and the entries that had hits, each reset to no hits; it comes back stale with nothing in flight |
| RequestMatcher.ConstructorExample | lib/commands/entities/PlaybackRequestMatcher.js:65-78 | `GET` with a URL matcher gives a fresh matcher with minTimes 1 and no ignored attributes |
| RequestMatcher.InvalidArgumentsExample | lib/commands/entities/tests/PlaybackRequestMatcher.spec.js:70-81 | a numeric method or a null matcher fails with "Invalid arguments", and no arguments fail with "Unsupported number of arguments: 0" |
| RequestMatcher.NewRequestPendingExample | lib/commands/entities/PlaybackRequestMatcher.js:97-140 | a declared matcher with `minTimes` 2 is still pending after its first response is recorded, and no longer once that response is served |
| RequestMatcher.FiledOnceThenServed | lib/commands/entities/PlaybackRequestMatcher.js:112-140 | with `minTimes` 2, a matcher is pending after one hit and not after a second hit served |
| RequestMatcher.RestoredPendingExample | lib/commands/entities/PlaybackRequestMatcher.js:128-140 | a restored matcher with no `minTimes` is not pending while stale, is pending while requests are in flight, and is not pending once they all complete |
| RequestMap.MatcherWith | lib/commands/entities/PlaybackRequestMap.js:67-71 | `Map.get` finds the matcher filed under an id, and finds nothing exactly when no matcher has that id |
| RequestMap.DeserializeMap | lib/commands/entities/PlaybackRequestMap.js:162-177 | no data and a version other than 1 both give an empty map; otherwise each stored matcher is restored stale and filed by its id; a matcher that fails to restore fails the whole call; on success every stored matcher restored, the map holds the last one restored under each id, and nothing else |
| RequestMap.NewMap | lib/commands/entities/PlaybackRequestMap.js:26-34 | fails unless both file and title are truthy; otherwise an unsealed map holding the deserialized matchers |
| RequestMap.Add | lib/commands/entities/PlaybackRequestMap.js:42-55 | a sealed map refuses and names the matcher text; otherwise it adds a new matcher, or clears the stale flag of the one filed under the same id, and returns the id |
| RequestMap.AddResponse | lib/commands/entities/PlaybackRequestMap.js:62-79 | fails when sealed or for an unknown matcher id; otherwise records the response in that matcher only |
| RequestMap.GetResponse | lib/commands/entities/PlaybackRequestMap.js:87-99 | fails with "No request matcher found" for an unknown id and is not blocked by the seal; otherwise it fingerprints the request with `options.matching.ignores` (default `[]`), passes on a fingerprint or lookup failure, hands out the collection's next response and advances its hits, and fails with "No more responses" once the collection is used up |
| RequestMap.GetResponseReadsMatcher | lib/commands/entities/PlaybackRequestMap.js:88-98 | the answer depends only on the matcher filed under the id, not on the rest of the map |
| RequestMap.GetResponseIgnoresSeal | lib/commands/entities/PlaybackRequestMap.js:87-99 | sealing the flag alone never changes the answer |
| RequestMap.SealedGetResponse | lib/commands/entities/PlaybackRequestMap.js:87-99 | after `seal`, a matcher that is not stale answers as before, and a stale one is gone, failing with "No request matcher found" |
| RequestMap.NotifyRequestStarted | lib/commands/entities/PlaybackRequestMap.js:101-107 | fails for an unknown id, is not blocked by the seal, and otherwise notifies only that matcher |
| RequestMap.NotifyRequestCompleted | lib/commands/entities/PlaybackRequestMap.js:109-115 | fails for an unknown id or with nothing in flight, and otherwise notifies only that matcher |
| RequestMap.AnyPending | lib/commands/entities/PlaybackRequestMap.js:117-124 | `hasPendingRequests` holds exactly when some matcher is pending |
| RequestMap.PendingRequests | lib/commands/entities/PlaybackRequestMap.js:126-129 | `getPendingRequests` lists exactly the pending matchers, in insertion order |
| RequestMap.HasPendingIffListed | lib/commands/entities/PlaybackRequestMap.js:117-129 | `hasPendingRequests` holds exactly when `getPendingRequests` is not empty |
| RequestMap.Seal | lib/commands/entities/PlaybackRequestMap.js:139-146 | sets the seal and removes exactly the stale matchers; file and title are unchanged |
| RequestMap.SealKeepsValid | lib/commands/entities/PlaybackRequestMap.js:139-146 | after sealing, each matcher is still filed under its own id, once |
| RequestMap.SealTwice | lib/commands/entities/PlaybackRequestMap.js:139-146 | a second seal changes nothing |
| RequestMap.SealedLookup | lib/commands/entities/PlaybackRequestMap.js:139-146 | after sealing, a matcher that is not stale is found as before, and a stale one is gone |
| RequestMap.SealedRefusesChanges | lib/commands/entities/PlaybackRequestMap.js:43-45 | a sealed map refuses `add` and `addResponse`, but still accepts `notifyRequestStarted` |
| RequestMap.SerializeMap | lib/commands/entities/PlaybackRequestMap.js:151-157 | emits version 1 and the serialized matchers in insertion order |
| RequestMap.MapRoundTrip | lib/commands/entities/PlaybackRequestMap.js:151-177 | a map of storable matchers deserializes from its serialization as the same matchers in the same order, each revived stale |
| RequestMap.RestoredNotPending | lib/commands/entities/tests/PlaybackRequestMap.spec.js:51-69 | a freshly constructed map has no pending requests |
| RequestMap.RestoredThenSealedIsEmpty | lib/commands/entities/PlaybackRequestMap.js:139-177 | sealing a map straight after loading it drops every restored matcher |
| RequestMap.AddAgainKeepsResponses | lib/commands/entities/PlaybackRequestMap.js:50-53 | declaring a known matcher again keeps its recorded responses and only clears `stale` |
| RequestMap.ConstructorExample | lib/commands/entities/tests/PlaybackRequestMap.spec.js:51-69 | a file and title give an empty unsealed map; a missing file or title fails |
| RequestMap.WrongVersionExample | lib/commands/entities/tests/PlaybackRequestMap.spec.js:143-149 | data stamped version -1 gives an empty map |
| RequestMap.UnknownMatcherExample | lib/commands/entities/tests/PlaybackRequestMap.spec.js:213-223 | `addResponse`, `notifyRequestStarted` and `notifyRequestCompleted` on an unknown matcher id fail with "No request matcher found" |
| RequestMap.StartCompleteExample | lib/commands/entities/tests/PlaybackRequestMap.spec.js:244-245 | a request started and completed on the first of two matchers leaves both in place and the first no longer stale |
| RequestMap.SealExample | lib/commands/entities/tests/PlaybackRequestMap.spec.js:226-260 | of two restored matchers, sealing keeps only the one that saw a request, and the other can no longer be found |
| PlaybackMode.ModeNamed | lib/commands/functions/getPlaybackMode.js:3 | a value names a mode exactly when it is one of the strings `record`, `playback` or `hybrid` |
| PlaybackMode.GetPlaybackMode | lib/commands/functions/getPlaybackMode.js:8-25 | a set mode is returned when it names a mode and fails with "Invalid mode" otherwise; an unset mode is `hybrid` in an interactive run and `playback` in a headless one, never `record` |
| PlaybackMode.SetModeIsKept | lib/commands/functions/getPlaybackMode.js:10-13 | each of the three mode names, when set, is returned as that mode |
| PlaybackMode.IsPlaybackMode | lib/commands/functions/isPlaybackMode.js:7-15 | a query that is not a mode name fails with "Invalid mode"; otherwise the answer is whether the current mode covers the queried one |
| PlaybackMode.IsPlaybackModeNow | lib/commands/functions/isPlaybackMode.js:7-15 | the query is answered against the mode `getPlaybackMode` returns, and fails when that fails |
| PlaybackMode.ModeTable | lib/commands/functions/isPlaybackMode.js:10-12 | the full 3×3 table: `playback` holds in playback and hybrid, `record` holds in record and hybrid, and `hybrid` holds only in hybrid |
| PlaybackMode.PlaybackAndRecordOnlyInHybrid | lib/commands/functions/tests/isPlaybackMode.spec.js:17-39 | the `playback` and `record` queries are both true exactly in hybrid mode |
| TestMetadata.InvocationDetails | lib/commands/functions/getTestMetadata.js:19 | the test's own `invocationDetails`, or else its parent's |
| TestMetadata.FileOf | lib/commands/functions/getTestMetadata.js:20 | the file is `test.file`, then `currentTest.file`, then `relativeFile` from the invocation details |
| TestMetadata.AncestorTitles | lib/commands/functions/getTestMetadata.js:22-27 | the walk stops at the root suite and fails with a TypeError on a chain with no root |
| TestMetadata.AncestorStep | lib/commands/functions/getTestMetadata.js:24-26 | a non-root suite's title goes in front of its ancestors' titles, so the titles run outermost first |
| TestMetadata.GetTestMetadata | lib/commands/functions/getTestMetadata.js:6-41 | fails without a current test; then a missing file fails before an empty title; otherwise it returns the file, the state unchanged, and the titles joined by `-` |
| TestMetadata.ChainTitles | lib/commands/functions/getTestMetadata.js:22-27 | the walk over a chain of suites collects their titles outermost first |
| TestMetadata.FullTitle | lib/commands/functions/getTestMetadata.js:22-40 | a current test in a chain of suites gets the title of the suites' titles and its own, joined by `-` |
| TestMetadata.NoContextExample | lib/commands/functions/tests/getTestMetadata.spec.js:70-73 | no context fails with 'No "currentTest" in context' |
| TestMetadata.MissingFileExample | lib/commands/functions/tests/getTestMetadata.spec.js:48-57 | a test with no file anywhere fails with 'Could not determine "file"' |
| TestMetadata.MissingTitleExample | lib/commands/functions/tests/getTestMetadata.spec.js:59-68 | a test with no title and no suites fails with 'Could not determine "title"' |
| TestMetadata.NestedSuitesExample | lib/commands/functions/tests/getTestMetadata.spec.js:29-38 | the example test gets the title `grandparent-parent-does thing` |

## Left out

- `PlaybackRequestMap.getAll` (lib/commands/entities/PlaybackRequestMap.js:131-133) returns the map's values in insertion order. That is the `matchers` field of `PlaybackMap` itself, so no function models it.
- `console.warn` on an out-of-date data version is a side effect with no result. The model returns the empty map only.
- Floating-point numbers, NaN, `Infinity` and `-0` are not modelled; every number is an integer.
- `RequestMatcher.NumberOf`: does not model the numeric parse of strings beyond plain decimal digits. A string with a sign, white space, a fraction or an exponent reads as NaN here, because the model has no floating-point numbers.
- `PlaybackResponse.BytesOf`: an object posing as an ArrayBuffer that also has a `length` is read by `new Uint8Array` as an array-like of that many elements. The model stores no bytes for it, because it does not model JavaScript's number conversion of the elements. `PlaybackResponse.PosingObjectIsEmptied` is stated only for objects without a `length`.
- JSON parsing covers integers only; fractions and exponents are not accepted. `JSON.stringify`'s `toJSON` hook and its key ordering for integer-like keys are not modelled.
- JavaScript strings are sequences of UTF-16 code units; here they are sequences of characters. Base64 works on bytes either way.
- MD5 is a parameter (`Env.md5`); its algorithm is not modelled and no collision-freedom is assumed.
- URL parsing is a parameter (`Env.parseUrl`).
- Object identity is not modelled: a `Map` is keyed by value, and objects shared between two places are copied. `stringifyBody` keeps each object's path in a map keyed by object identity (`objectPaths`). The model passes the path down the recursion instead, which gives every property the path of the place where it is visited.
- The source's RegExp matchers and function values carry behaviour the model does not run. A RegExp is its source and flags, and a function is an opaque value.
- Cypress hooks, timers, `cy.intercept`, the disk read and write, and file-path helpers are outside the engine and are not modelled.
- `PlaybackRequestMap.getResponse` calls `matcher.getResponseCollection(...)`, which `PlaybackRequestMatcher.js` does not define. The model takes that call as a parameter `lookup`, which may fail. It returns the advanced collection next to the response, because the matcher has no place to store it.
- `PlaybackRequestMatcher.addResponse` builds a six-argument `PlaybackResponse` and uses its `.id` and `.addHit()`. `PlaybackResponse.js` accepts only one or four arguments and has neither. Each matcher entry is therefore a record of fingerprint, response and hits; see Findings. The stored response has no `id` of its own, so the entry's `id` is the request fingerprint it was filed under.
- `PlaybackResponseCollection.addResponse` does not change `hits` in the code, but its tests at lib/commands/entities/tests/PlaybackResponseCollection.spec.js:145-165 expect a bump. The model follows the code.
- The collection's "no more responses" error ends with "Hits n" in the code and "Hit Count" in its test. The model's error carries the URL and the hit count.
- The matcher tests exercise `toBeCalledAtLeast` and `anyOnce` options that this matcher does not read. The model reads `minTimes`, as the code does.
- `getInterceptedResponseId` follows the code: a plain JSON encoding of the body, with the URL parts listed in `defaultResponseAttributes`. Per-property body filtering and search-parameter filtering are described for other revisions of the project but are not in this code.

## Findings

| source | as written | input that shows it | evidently intended | confidence | as-written member | corrected member |
|---|---|---|---|---|---|---|
| lib/commands/entities/PlaybackRequestMatcher.js:104-111 | `addResponse` constructs `new PlaybackResponse(statusCode, statusMessage, body, headers, interceptedRequest, ignoredAttributes)`, but the constructor accepts only one or four arguments and throws "Invalid number of arguments: 6" | any call, such as a 200 response with a string body for a parsed request | build the four-argument response, file it under the request's fingerprint, and count a hit | not executed | RequestMatcher.AddResponseAsWritten (exhibited by RequestMatcher.AsWrittenNeverRecords) | RequestMatcher.AddResponse |
