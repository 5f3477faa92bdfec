/**
 * PlaybackRequestMap (lib/commands/entities/PlaybackRequestMap.js): the
 * request matchers one test declared, filed by matcher id in the order they
 * were first declared, for one spec file and test title. Once sealed it takes
 * no new matchers or responses and has dropped the matchers no test declared.
 */
module RequestMap {
  import opened Wrappers
  import opened JsValues
  import opened Errors
  import opened Env
  import opened MatcherString
  import opened InterceptedResponseId
  import opened PlaybackResponse
  import opened ResponseTable
  import opened ResponseCollection
  import opened RequestMatcher
  import opened KeyedList
  import opened Traverse

  /** The version stamped on serialized request data (lib/commands/constants.js:6). */
  const SerializeVersion: int := 1

  /** The private fields: the file, the title, the map's values in insertion order, and the seal. */
  datatype PlaybackMap = PlaybackMap(file: Value, title: Value, matchers: seq<Matcher>, sealed: bool)

  /** The key a matcher is filed under. */
  function KeyOf(m: Matcher): Value
  {
    m.id
  }

  /** Each matcher is filed under its own id, once. */
  predicate Valid(pm: PlaybackMap)
  {
    DistinctKeys(pm.matchers, KeyOf)
  }

  /** `#map.get(matcherId)` */
  function MatcherWith(pm: PlaybackMap, id: Value): (r: Option<Matcher>)
    ensures r.Some? ==> r.value.id == id && r.value in pm.matchers
    ensures r.None? <==> forall i :: 0 <= i < |pm.matchers| ==> pm.matchers[i].id != id
  {
    KeyedList.FindNone(pm.matchers, KeyOf, id);
    KeyedList.Find(pm.matchers, KeyOf, id)
  }

  /** `data?.matchers?.length`: defined for arrays, strings and objects with a `length`. */
  function LengthOf(v: Value): (r: Value)
    ensures v.Arr? ==> r == Num(|v.items|)
    ensures v.Str? ==> r == Num(|v.s|)
    ensures Nullish(v) ==> r == Undefined
  {
    match v
    case Arr(items) => Num(|items|)
    case Str(s) => Num(|s|)
    case Obj(members) => Lookup(members, "length")
    case _ => Undefined
  }

  /** What `for ... of` walks through: an array's items or a string's characters; anything else is not iterable. */
  function Iterated(v: Value): (r: Option<seq<Value>>)
    ensures v.Arr? ==> r == Some(v.items)
    ensures v.Str? ==> r.Some? && |r.value| == |v.s| && forall i :: 0 <= i < |v.s| ==> r.value[i] == Str([v.s[i]])
    ensures !v.Arr? && !v.Str? ==> r.None?
  {
    match v
    case Arr(items) => Some(items)
    case Str(s) => Some(seq(|s|, i requires 0 <= i < |s| => Str([s[i]])))
    case _ => None
  }

  /** A matcher restored from disk: stale, nothing in flight, no hits. */
  predicate Restored(m: Matcher)
  {
    m.stale && m.inflight == 0 && TotalHits(m.entries) == 0
  }

  /** A deserialized matcher is a restored one. */
  lemma DeserializedIsRestored(data: Value)
    requires DeserializeMatcher(data).Ok?
    ensures Restored(DeserializeMatcher(data).value)
  {
    NoHitsTotal(DeserializeMatcher(data).value.entries);
  }

  /** Matchers deserialized from stored items, filed by id, are all restored ones. */
  lemma ParsedAreRestored(items: seq<Value>, parsed: seq<Matcher>)
    requires |items| == |parsed| && forall i :: 0 <= i < |items| ==> DeserializeMatcher(items[i]) == Ok(parsed[i])
    ensures forall m :: m in PutAll([], parsed, KeyOf) ==> Restored(m)
  {
    forall m | m in PutAll([], parsed, KeyOf) ensures Restored(m) {
      var k :| 0 <= k < |parsed| && parsed[k] == m;
      DeserializedIsRestored(items[k]);
    }
  }

  /** Entries that have no hits add up to none. */
  lemma {:induction false} NoHitsTotal(entries: seq<Entry<Response>>)
    requires forall i :: 0 <= i < |entries| ==> entries[i].hits == 0
    ensures TotalHits(entries) == 0
    decreases |entries|
  {
    if |entries| > 0 {
      assert forall i :: 0 <= i < |entries[1..]| ==> entries[1..][i] == entries[i + 1];
      NoHitsTotal(entries[1..]);
    }
  }

  /**
   * deserialize: no data, or data of another version, gives an empty map;
   * otherwise a non-empty `matchers` list is walked and every entry becomes a
   * restored matcher filed under its id, a later one replacing an earlier one
   * in its place. A string walks character by character, and an object with
   * a `length` is not iterable: both throw.
   */
  function DeserializeMap(data: Value): (r: Outcome<seq<Matcher>>)
    ensures !Truthy(data) ==> r == Ok([])
    ensures Truthy(data) && Get(data, "version") != Num(SerializeVersion) ==> r == Ok([])
    ensures Truthy(data) && Get(data, "version") == Num(SerializeVersion) && Get(data, "matchers").Arr? ==>
      (r.Ok? <==> forall i :: 0 <= i < |Get(data, "matchers").items| ==> DeserializeMatcher(Get(data, "matchers").items[i]).Ok?)
    ensures Truthy(data) && Get(data, "version") == Num(SerializeVersion) && Get(data, "matchers").Str? && Get(data, "matchers").s != "" ==>
      r.Err? && r.error.TypeError?
    ensures r.Ok? ==> DistinctKeys(r.value, KeyOf)
    ensures r.Ok? ==> forall m :: m in r.value ==> Restored(m)
    ensures r.Ok? && Truthy(data) && Get(data, "version") == Num(SerializeVersion) && Get(data, "matchers").Arr? ==>
      MapAll(Get(data, "matchers").items, DeserializeMatcher).Ok?
      && KeepsLast(MapAll(Get(data, "matchers").items, DeserializeMatcher).value, KeyOf, r.value)
  {
    if !Truthy(data) then Ok([])
    else if Get(data, "version") != Num(SerializeVersion) then Ok([])
    else
      var list := Get(data, "matchers");
      if !Truthy(LengthOf(list)) then Ok([])
      else
        match Iterated(list)
        case None => Err(TypeError("data.matchers is not iterable"))
        case Some(items) =>
          var parsed :- MapAll(items, DeserializeMatcher);
          ParsedAreRestored(items, parsed);
          PutAllKeepsLastAll(parsed, KeyOf);
          Ok(PutAll([], parsed, KeyOf))
  }

  /** The constructor: file and title must both be truthy; the data, `null` by default, is deserialized. */
  function NewMap(file: Value, title: Value, data: Value): (r: Outcome<PlaybackMap>)
    ensures !Truthy(file) || !Truthy(title) ==> r == Err(FileAndTitleRequired)
    ensures Truthy(file) && Truthy(title) ==> (r.Ok? <==> DeserializeMap(data).Ok?)
    ensures Truthy(file) && Truthy(title) && DeserializeMap(data).Err? ==> r == Err(DeserializeMap(data).error)
    ensures r.Ok? ==> r.value.file == file && r.value.title == title && !r.value.sealed
    ensures r.Ok? ==> r.value.matchers == DeserializeMap(data).value && Valid(r.value)
  {
    if !Truthy(file) || !Truthy(title) then Err(FileAndTitleRequired)
    else
      var matchers :- DeserializeMap(data);
      Ok(PlaybackMap(file, title, matchers, false))
  }

  /**
   * add: refused once sealed, naming the matcher. Otherwise the declaration
   * (options `{}` by default) becomes a matcher; an id not seen before is
   * filed at the end, while a matcher already filed under that id stays,
   * with its recorded responses, and is no longer stale. The id is returned.
   */
  function Add(env: Env, pm: PlaybackMap, httpMethod: Value, routeMatcher: Value, options: Value): (r: Outcome<(Value, PlaybackMap)>)
    ensures pm.sealed ==> r.Err?
    ensures pm.sealed && GetMatcherAsString(routeMatcher).Ok? ==> r == Err(SealedAddMatcher(GetMatcherAsString(routeMatcher).value))
    ensures !pm.sealed ==> (r.Ok? <==> NewMatcher(env, [httpMethod, routeMatcher, options]).Ok?)
    ensures !pm.sealed && NewMatcher(env, [httpMethod, routeMatcher, options]).Err? ==>
      r == Err(NewMatcher(env, [httpMethod, routeMatcher, options]).error)
    ensures r.Ok? ==> r.value.0 == NewMatcher(env, [httpMethod, routeMatcher, options]).value.id
    ensures r.Ok? ==> r.value.1.(matchers := pm.matchers) == pm
    ensures r.Ok? && MatcherWith(pm, r.value.0).None? ==>
      r.value.1.matchers == pm.matchers + [NewMatcher(env, [httpMethod, routeMatcher, options]).value]
    ensures r.Ok? && MatcherWith(pm, r.value.0).Some? ==>
      MatcherWith(r.value.1, r.value.0) == Some(MatcherWith(pm, r.value.0).value.(stale := false))
    ensures r.Ok? && Valid(pm) ==> Valid(r.value.1)
  {
    if pm.sealed then
      var text :- GetMatcherAsString(routeMatcher);
      Err(SealedAddMatcher(text))
    else
      var declared := if options.Undefined? then Obj([]) else options;
      var matcher :- NewMatcher(env, [httpMethod, routeMatcher, declared]);
      PutKeepsDistinct(pm.matchers, KeyOf, matcher);
      match MatcherWith(pm, matcher.id)
      case None => Ok((matcher.id, pm.(matchers := Put(pm.matchers, KeyOf, matcher))))
      case Some(existing) =>
        var revived := existing.(stale := false);
        PutKeepsDistinct(pm.matchers, KeyOf, revived);
        FindAfterPut(pm.matchers, KeyOf, revived, matcher.id);
        Ok((matcher.id, pm.(matchers := Put(pm.matchers, KeyOf, revived))))
  }

  /** Replaces the matcher filed under `m.id` with `m`, in its place. */
  function Refile(pm: PlaybackMap, m: Matcher): (r: PlaybackMap)
    requires MatcherWith(pm, m.id).Some?
    ensures r.(matchers := pm.matchers) == pm
    ensures |r.matchers| == |pm.matchers|
    ensures MatcherWith(r, m.id) == Some(m)
    ensures forall id :: id != m.id ==> MatcherWith(r, id) == MatcherWith(pm, id)
    ensures Valid(pm) ==> Valid(r)
  {
    PutKeepsDistinct(pm.matchers, KeyOf, m);
    FindAfterPut(pm.matchers, KeyOf, m, m.id);
    assert forall id :: id != m.id ==> MatcherWith(pm.(matchers := Put(pm.matchers, KeyOf, m)), id) == MatcherWith(pm, id) by {
      forall id | id != m.id ensures KeyedList.Find(Put(pm.matchers, KeyOf, m), KeyOf, id) == KeyedList.Find(pm.matchers, KeyOf, id) {
        FindAfterPut(pm.matchers, KeyOf, m, id);
      }
    }
    pm.(matchers := Put(pm.matchers, KeyOf, m))
  }

  /**
   * addResponse: the intercepted response is destructured first, so a
   * missing one throws; a sealed map refuses, naming the request's URL; an
   * unknown matcher id throws; otherwise that matcher records the response
   * and no other matcher changes.
   */
  function AddResponse(env: Env, pm: PlaybackMap, matcherId: Value, request: Value, response: Value): (r: Outcome<PlaybackMap>)
    ensures Nullish(response) ==> r.Err? && r.error.TypeError?
    ensures !Nullish(response) && pm.sealed ==> r.Err?
    ensures !Nullish(response) && pm.sealed && !Nullish(request) ==> r == Err(SealedAddResponse(Get(request, "url")))
    ensures !Nullish(response) && !pm.sealed && MatcherWith(pm, matcherId).None? ==> r == Err(NoRequestMatcher(matcherId))
    ensures !Nullish(response) && !pm.sealed && MatcherWith(pm, matcherId).Some? ==>
      (r.Ok? <==> RequestMatcher.AddResponse(env, MatcherWith(pm, matcherId).value, Get(response, "statusCode"),
        Get(response, "statusMessage"), Get(response, "body"), Get(response, "headers"), request).Ok?)
    ensures r.Ok? ==> (MatcherWith(pm, matcherId).Some? && MatcherWith(r.value, matcherId) ==
      Some(RequestMatcher.AddResponse(env, MatcherWith(pm, matcherId).value, Get(response, "statusCode"),
        Get(response, "statusMessage"), Get(response, "body"), Get(response, "headers"), request).value))
    ensures r.Ok? ==> forall id :: id != matcherId ==> MatcherWith(r.value, id) == MatcherWith(pm, id)
    ensures r.Ok? ==> r.value.(matchers := pm.matchers) == pm && (Valid(pm) ==> Valid(r.value))
  {
    if Nullish(response) then Err(TypeError("Cannot destructure the intercepted response"))
    else if pm.sealed then
      if Nullish(request) then Err(TypeError("Cannot read properties of " + Json.ToText(request) + " (reading 'url')"))
      else Err(SealedAddResponse(Get(request, "url")))
    else
      match MatcherWith(pm, matcherId)
      case None => Err(NoRequestMatcher(matcherId))
      case Some(m) =>
        var recorded :- RequestMatcher.AddResponse(env, m, Get(response, "statusCode"), Get(response, "statusMessage"),
          Get(response, "body"), Get(response, "headers"), request);
        Ok(Refile(pm, recorded))
  }

  /**
   * getResponse: an unknown matcher id throws; otherwise the request is
   * fingerprinted with the call's `matching.ignores` (none by default), the
   * matcher is asked for the collection under that fingerprint, and the
   * collection's next response is handed out. The matcher's side of that
   * request is the parameter `lookup`, which may fail. The map itself does
   * not change, sealed or not.
   */
  function GetResponse(env: Env, pm: PlaybackMap, matcherId: Value, request: Value, options: Value,
                       lookup: (Matcher, string, Value) -> Outcome<Collection>): (r: Outcome<(Response, Collection)>)
    ensures MatcherWith(pm, matcherId).None? ==> r == Err(NoRequestMatcher(matcherId))
    ensures MatcherWith(pm, matcherId).Some? && Nullish(options) && !options.Undefined? ==> r.Err? && r.error.TypeError?
    ensures r.Ok? ==> (
      var ignores := Coalesce(Get(Get(options, "matching"), "ignores"), Arr([]));
      var fingerprint := GetInterceptedResponseId(env, request, ignores);
      MatcherWith(pm, matcherId).Some? && fingerprint.Ok?
      && lookup(MatcherWith(pm, matcherId).value, fingerprint.value, Get(request, "url")).Ok?
      && var c := lookup(MatcherWith(pm, matcherId).value, fingerprint.value, Get(request, "url")).value;
      c.hits < |c.responses| && r.value.0 == c.responses[c.hits] && r.value.1 == c.(hits := c.hits + 1))
    ensures MatcherWith(pm, matcherId).Some? && !(Nullish(options) && !options.Undefined?) ==> (
      var ignores := Coalesce(Get(Get(options, "matching"), "ignores"), Arr([]));
      var fingerprint := GetInterceptedResponseId(env, request, ignores);
      (fingerprint.Err? ==> r == Err(fingerprint.error))
      && (fingerprint.Ok? ==>
        var found := lookup(MatcherWith(pm, matcherId).value, fingerprint.value, Get(request, "url"));
        (found.Err? ==> r == Err(found.error))
        && (found.Ok? && found.value.hits < |found.value.responses| ==>
          r == Ok((found.value.responses[found.value.hits], found.value.(hits := found.value.hits + 1))))
        && (found.Ok? && found.value.hits >= |found.value.responses| ==>
          r == Err(NoMoreResponses(found.value.url, found.value.hits)))))
  {
    match MatcherWith(pm, matcherId)
    case None => Err(NoRequestMatcher(matcherId))
    case Some(m) =>
      var declared := if options.Undefined? then Obj([]) else options;
      if Nullish(declared) then Err(TypeError("Cannot read properties of null (reading 'matching')"))
      else
        var ignores := Coalesce(Get(Get(declared, "matching"), "ignores"), Arr([]));
        var fingerprint :- GetInterceptedResponseId(env, request, ignores);
        var collection :- lookup(m, fingerprint, Get(request, "url"));
        GetNextResponse(collection)
  }

  /** getResponse reads nothing of the map but the matcher filed under the id. */
  lemma GetResponseReadsMatcher(env: Env, pm1: PlaybackMap, pm2: PlaybackMap, matcherId: Value, request: Value, options: Value,
                                lookup: (Matcher, string, Value) -> Outcome<Collection>)
    requires MatcherWith(pm1, matcherId) == MatcherWith(pm2, matcherId)
    ensures GetResponse(env, pm1, matcherId, request, options, lookup) == GetResponse(env, pm2, matcherId, request, options, lookup)
  {
  }

  /** getResponse reads only the matchers: the seal makes no difference to it. */
  lemma GetResponseIgnoresSeal(env: Env, pm: PlaybackMap, matcherId: Value, request: Value, options: Value,
                               lookup: (Matcher, string, Value) -> Outcome<Collection>)
    ensures GetResponse(env, pm.(sealed := true), matcherId, request, options, lookup)
      == GetResponse(env, pm, matcherId, request, options, lookup)
  {
    GetResponseReadsMatcher(env, pm.(sealed := true), pm, matcherId, request, options, lookup);
  }

  /**
   * After sealing, a matcher some test declared serves exactly as before,
   * and one no test declared is unknown.
   */
  lemma SealedGetResponse(env: Env, pm: PlaybackMap, matcherId: Value, request: Value, options: Value,
                          lookup: (Matcher, string, Value) -> Outcome<Collection>)
    requires Valid(pm)
    ensures MatcherWith(pm, matcherId).Some? && !MatcherWith(pm, matcherId).value.stale ==>
      GetResponse(env, Seal(pm), matcherId, request, options, lookup) == GetResponse(env, pm, matcherId, request, options, lookup)
    ensures MatcherWith(pm, matcherId).None? || MatcherWith(pm, matcherId).value.stale ==>
      GetResponse(env, Seal(pm), matcherId, request, options, lookup) == Err(NoRequestMatcher(matcherId))
  {
    var sealed := Seal(pm);
    if MatcherWith(pm, matcherId).Some? && !MatcherWith(pm, matcherId).value.stale {
      assert MatcherWith(sealed, matcherId) == MatcherWith(pm, matcherId) by {
        SealedLookup(pm, matcherId);
      }
      GetResponseReadsMatcher(env, sealed, pm, matcherId, request, options, lookup);
    } else {
      assert MatcherWith(sealed, matcherId).None? by {
        SealedLookup(pm, matcherId);
      }
    }
  }

  /** notifyRequestStarted: the matcher under `matcherId` counts one more request in flight. */
  function NotifyRequestStarted(pm: PlaybackMap, matcherId: Value): (r: Outcome<PlaybackMap>)
    ensures r.Err? <==> MatcherWith(pm, matcherId).None?
    ensures r.Err? ==> r.error == NoRequestMatcher(matcherId)
    ensures r.Ok? ==> MatcherWith(r.value, matcherId) == Some(RequestMatcher.NotifyRequestStarted(MatcherWith(pm, matcherId).value))
    ensures r.Ok? ==> forall id :: id != matcherId ==> MatcherWith(r.value, id) == MatcherWith(pm, id)
    ensures r.Ok? ==> r.value.(matchers := pm.matchers) == pm && (Valid(pm) ==> Valid(r.value))
  {
    match MatcherWith(pm, matcherId)
    case None => Err(NoRequestMatcher(matcherId))
    case Some(m) => Ok(Refile(pm, RequestMatcher.NotifyRequestStarted(m)))
  }

  /** notifyRequestCompleted: the matcher under `matcherId` counts one request fewer in flight. */
  function NotifyRequestCompleted(pm: PlaybackMap, matcherId: Value): (r: Outcome<PlaybackMap>)
    ensures MatcherWith(pm, matcherId).None? ==> r == Err(NoRequestMatcher(matcherId))
    ensures MatcherWith(pm, matcherId).Some? ==>
      (r.Ok? <==> RequestMatcher.NotifyRequestCompleted(MatcherWith(pm, matcherId).value).Ok?)
    ensures MatcherWith(pm, matcherId).Some? && r.Err? ==> r.error == NoRequestsInflight
    ensures r.Ok? ==> (MatcherWith(pm, matcherId).Some? &&
      MatcherWith(r.value, matcherId) == Some(RequestMatcher.NotifyRequestCompleted(MatcherWith(pm, matcherId).value).value))
    ensures r.Ok? ==> forall id :: id != matcherId ==> MatcherWith(r.value, id) == MatcherWith(pm, id)
    ensures r.Ok? ==> r.value.(matchers := pm.matchers) == pm && (Valid(pm) ==> Valid(r.value))
  {
    match MatcherWith(pm, matcherId)
    case None => Err(NoRequestMatcher(matcherId))
    case Some(m) =>
      var done :- RequestMatcher.NotifyRequestCompleted(m);
      Ok(Refile(pm, done))
  }

  /** getPendingRequests: the pending matchers, in insertion order. */
  function PendingRequests(pm: PlaybackMap): (r: seq<Matcher>)
    ensures forall m :: m in r <==> m in pm.matchers && IsPending(m)
  {
    Filter(pm.matchers, IsPending)
  }

  /** hasPendingRequests: the loop stops at the first pending matcher. */
  function AnyPending(matchers: seq<Matcher>): (r: bool)
    ensures r <==> exists i :: 0 <= i < |matchers| && IsPending(matchers[i])
  {
    if |matchers| == 0 then false
    else if IsPending(matchers[0]) then true
    else
      assert forall i :: 1 <= i < |matchers| ==> matchers[i] == matchers[1..][i - 1];
      AnyPending(matchers[1..])
  }

  /** hasPendingRequests agrees with getPendingRequests: some matcher waits exactly when the list is not empty. */
  lemma HasPendingIffListed(pm: PlaybackMap)
    ensures AnyPending(pm.matchers) <==> PendingRequests(pm) != []
  {
    if AnyPending(pm.matchers) {
      var i :| 0 <= i < |pm.matchers| && IsPending(pm.matchers[i]);
      assert pm.matchers[i] in PendingRequests(pm);
    }
    if PendingRequests(pm) != [] {
      var m := PendingRequests(pm)[0];
      assert m in PendingRequests(pm);
      var i :| 0 <= i < |pm.matchers| && pm.matchers[i] == m;
      assert IsPending(pm.matchers[i]);
    }
  }

  /** A matcher survives the seal when a test declared it or sent it a request. */
  predicate Live(m: Matcher)
  {
    !m.stale
  }

  /** seal: no more matchers or responses, and the stale matchers are deleted. */
  function Seal(pm: PlaybackMap): (r: PlaybackMap)
    ensures r.sealed && r.file == pm.file && r.title == pm.title
    ensures forall m :: m in r.matchers <==> m in pm.matchers && !m.stale
  {
    pm.(sealed := true, matchers := Filter(pm.matchers, Live))
  }

  /** Sealing keeps each matcher filed under its own id, once. */
  lemma SealKeepsValid(pm: PlaybackMap)
    requires Valid(pm)
    ensures Valid(Seal(pm))
  {
    FilterKeepsDistinct(pm.matchers, KeyOf, Live);
  }

  /** Sealing twice is sealing once. */
  lemma SealTwice(pm: PlaybackMap)
    ensures Seal(Seal(pm)) == Seal(pm)
  {
    FilterTwice(pm.matchers, Live);
  }

  /** After the seal a live matcher is found as before and a stale one is gone. */
  lemma SealedLookup(pm: PlaybackMap, id: Value)
    requires Valid(pm)
    ensures MatcherWith(pm, id).Some? && !MatcherWith(pm, id).value.stale ==> MatcherWith(Seal(pm), id) == MatcherWith(pm, id)
    ensures MatcherWith(pm, id).None? || MatcherWith(pm, id).value.stale ==> MatcherWith(Seal(pm), id).None?
  {
    FindAfterFilter(pm.matchers, KeyOf, Live, id);
  }

  /** serialize: the version and every matcher, in insertion order. */
  function SerializeMap(pm: PlaybackMap): (r: Outcome<Value>)
    ensures r.Ok? <==> forall i :: 0 <= i < |pm.matchers| ==> SerializeMatcher(pm.matchers[i]).Ok?
    ensures r.Ok? ==> r.value.Obj? && Get(r.value, "version") == Num(SerializeVersion)
    ensures r.Ok? ==> Get(r.value, "matchers") == Arr(MapAll(pm.matchers, SerializeMatcher).value)
  {
    var matchers :- MapAll(pm.matchers, SerializeMatcher);
    var members := [Member("version", Num(SerializeVersion)), Member("matchers", Arr(matchers))];
    assert members[1..] == [Member("matchers", Arr(matchers))];
    assert Lookup(members, "matchers") == Lookup(members[1..], "matchers");
    Ok(Obj(members))
  }

  // ---------------------------------------------------------------------------
  // Properties
  // ---------------------------------------------------------------------------

  /** A matcher as it comes back from disk: its used responses without hits, stale, nothing in flight. */
  function Revived(m: Matcher): (r: Matcher)
    ensures r.id == m.id && r.stale && r.inflight == 0
  {
    m.(entries := Unused(Recorded(m.entries)), inflight := 0, stale := true)
  }

  /** What a matcher needs to survive the round trip: unique fingerprints and stable used responses. */
  predicate Storable(m: Matcher)
  {
    DistinctIds(m.entries) && forall x :: x in m.entries && x.hits > 0 ==> Stable(x.response)
  }

  /**
   * A map of storable matchers survives serialize then deserialize: the same
   * matchers under the same ids and in the same order, each revived.
   */
  lemma MapRoundTrip(pm: PlaybackMap)
    requires Valid(pm)
    requires forall i :: 0 <= i < |pm.matchers| ==> Storable(pm.matchers[i])
    ensures SerializeMap(pm).Ok?
    ensures DeserializeMap(SerializeMap(pm).value) == Ok(RevivedAll(pm.matchers))
  {
    MatchersRoundTrip(pm.matchers);
    RevivedKeepsKeys(pm.matchers);
    assert [] + RevivedAll(pm.matchers) == RevivedAll(pm.matchers);
    StoredMapReads(SerializeMap(pm).value, MapAll(pm.matchers, SerializeMatcher).value, RevivedAll(pm.matchers));
  }

  /** Every matcher revived, in order. */
  function RevivedAll(matchers: seq<Matcher>): (r: seq<Matcher>)
    ensures |r| == |matchers| && forall i :: 0 <= i < |matchers| ==> r[i] == Revived(matchers[i])
  {
    seq(|matchers|, i requires 0 <= i < |matchers| => Revived(matchers[i]))
  }

  /** Storable matchers survive serialize then parse, each revived. */
  lemma MatchersRoundTrip(matchers: seq<Matcher>)
    requires forall i :: 0 <= i < |matchers| ==> Storable(matchers[i])
    ensures MapAll(matchers, SerializeMatcher).Ok?
    ensures MapAll(MapAll(matchers, SerializeMatcher).value, DeserializeMatcher) == Ok(RevivedAll(matchers))
  {
    var revived := RevivedAll(matchers);
    forall i | 0 <= i < |matchers|
      ensures SerializeMatcher(matchers[i]).Ok? && DeserializeMatcher(SerializeMatcher(matchers[i]).value) == Ok(revived[i])
    {
      MatcherRoundTrip(matchers[i]);
    }
    MapAllThen(matchers, SerializeMatcher, DeserializeMatcher, revived);
  }

  /** Revived matchers keep their ids, so they stay unique. */
  lemma RevivedKeepsKeys(matchers: seq<Matcher>)
    requires DistinctKeys(matchers, KeyOf)
    ensures DistinctKeys([] + RevivedAll(matchers), KeyOf)
  {
    var revived := RevivedAll(matchers);
    assert [] + revived == revived;
    forall i, j | 0 <= i < j < |revived| ensures KeyOf(revived[i]) != KeyOf(revived[j]) {
      assert KeyOf(matchers[i]) != KeyOf(matchers[j]);
    }
  }

  /** Deserializing stored data of the current version whose matchers parse to fresh, unique ids. */
  lemma StoredMapReads(data: Value, items: seq<Value>, parsed: seq<Matcher>)
    requires data.Obj? && Get(data, "version") == Num(SerializeVersion) && Get(data, "matchers") == Arr(items)
    requires MapAll(items, DeserializeMatcher) == Ok(parsed) && DistinctKeys(parsed, KeyOf)
    ensures DeserializeMap(data) == Ok(parsed)
  {
    assert [] + parsed == parsed;
    PutAllFresh([], parsed, KeyOf);
    assert Truthy(data) && Iterated(Get(data, "matchers")) == Some(items);
    if |items| == 0 {
      assert parsed == [];
    } else {
      assert Truthy(LengthOf(Get(data, "matchers")));
      assert [] + parsed == parsed;
    }
  }

  /** A map restored from disk waits for nothing until a test touches it. */
  lemma RestoredNotPending(file: Value, title: Value, data: Value)
    requires NewMap(file, title, data).Ok?
    ensures PendingRequests(NewMap(file, title, data).value) == []
    ensures !AnyPending(NewMap(file, title, data).value.matchers)
  {
    var pm := NewMap(file, title, data).value;
    HasPendingIffListed(pm);
  }

  /** A map restored from disk and sealed at once keeps no matcher. */
  lemma RestoredThenSealedIsEmpty(file: Value, title: Value, data: Value)
    requires NewMap(file, title, data).Ok?
    ensures Seal(NewMap(file, title, data).value).matchers == []
  {
    var matchers := NewMap(file, title, data).value.matchers;
    assert forall i :: 0 <= i < |matchers| ==> matchers[i] in matchers;
    FilterNone(matchers, Live);
  }

  /** Declaring a route once more adds no matcher and loses no recorded response. */
  lemma AddAgainKeepsResponses(env: Env, pm: PlaybackMap, httpMethod: Value, routeMatcher: Value, options: Value)
    requires !pm.sealed && NewMatcher(env, [httpMethod, routeMatcher, options]).Ok?
    requires MatcherWith(pm, NewMatcher(env, [httpMethod, routeMatcher, options]).value.id).Some?
    ensures Add(env, pm, httpMethod, routeMatcher, options).Ok?
    ensures var (id, after) := Add(env, pm, httpMethod, routeMatcher, options).value;
      |after.matchers| == |pm.matchers|
      && MatcherWith(after, id).value.entries == MatcherWith(pm, id).value.entries
      && MatcherWith(after, id).value.inflight == MatcherWith(pm, id).value.inflight
      && !MatcherWith(after, id).value.stale
  {
  }

  /** Once sealed, nothing can be declared or recorded; requests are still served and counted. */
  lemma SealedRefusesChanges(env: Env, pm: PlaybackMap, httpMethod: Value, routeMatcher: Value, options: Value,
                             matcherId: Value, request: Value, response: Value)
    ensures Add(env, Seal(pm), httpMethod, routeMatcher, options).Err?
    ensures AddResponse(env, Seal(pm), matcherId, request, response).Err?
    ensures MatcherWith(Seal(pm), matcherId).Some? ==> NotifyRequestStarted(Seal(pm), matcherId).Ok?
  {
    assert Seal(pm).sealed;
  }

  // ---------------------------------------------------------------------------
  // Scenarios from the map's tests
  // ---------------------------------------------------------------------------

  /** A map needs a file and a title; one built without data holds nothing and waits for nothing. */
  lemma ConstructorExample()
    ensures NewMap(Str("file-1"), Str("title-1"), Null) == Ok(PlaybackMap(Str("file-1"), Str("title-1"), [], false))
    ensures NewMap(Str("file-1"), Undefined, Null) == Err(FileAndTitleRequired)
    ensures NewMap(Null, Str("title-1"), Null) == Err(FileAndTitleRequired)
    ensures !AnyPending([])
  {
  }

  /** Data of another version is set aside: the map starts empty. */
  lemma WrongVersionExample(matchers: Value)
    ensures NewMap(Str("file-1"), Str("title-1"), Obj([Member("version", Num(-1)), Member("matchers", matchers)]))
      == Ok(PlaybackMap(Str("file-1"), Str("title-1"), [], false))
  {
  }

  /** Unknown matcher ids are refused by addResponse and the request notifications. */
  lemma UnknownMatcherExample(env: Env)
    ensures var pm := PlaybackMap(Str("file-1"), Str("title-1"), [], false);
      AddResponse(env, pm, Str("mock-id"), Obj([]), Obj([])) == Err(NoRequestMatcher(Str("mock-id")))
      && NotifyRequestStarted(pm, Str("mock-id")) == Err(NoRequestMatcher(Str("mock-id")))
      && NotifyRequestCompleted(pm, Str("mock-id")) == Err(NoRequestMatcher(Str("mock-id")))
  {
  }

  /** A request started and completed on the first of two matchers leaves it in place, no longer stale. */
  lemma StartCompleteExample(m1: Matcher, m2: Matcher)
    requires m1.id != m2.id && m1.inflight == 0
    ensures var pm := PlaybackMap(Str("file-1"), Str("title-1"), [m1, m2], false);
      var started := NotifyRequestStarted(pm, m1.id);
      started.Ok? && NotifyRequestCompleted(started.value, m1.id) == Ok(pm.(matchers := [m1.(stale := false), m2]))
  {
    var pm := PlaybackMap(Str("file-1"), Str("title-1"), [m1, m2], false);
    var s1 := RequestMatcher.NotifyRequestStarted(m1);
    FirstOfTwo(m1, m2, s1);
    var started := pm.(matchers := [s1, m2]);
    assert NotifyRequestStarted(pm, m1.id) == Ok(started);
    FirstOfTwo(s1, m2, m1.(stale := false));
  }

  /** In a map of two matchers, the first is found under its id and is replaced in place. */
  lemma FirstOfTwo(a: Matcher, b: Matcher, x: Matcher)
    requires x.id == a.id
    ensures KeyedList.Find([a, b], KeyOf, a.id) == Some(a)
    ensures Put([a, b], KeyOf, x) == [x, b]
  {
    assert [a, b][1..] == [b];
  }

  /**
   * Two restored matchers, the first of them sent a request: sealing keeps
   * only that one, and the other can no longer be found.
   */
  lemma SealExample(m1: Matcher, m2: Matcher)
    requires Restored(m1) && Restored(m2) && m1.id != m2.id
    ensures var pm := PlaybackMap(Str("file-1"), Str("title-1"), [m1, m2], false);
      var started := NotifyRequestStarted(pm, m1.id).value;
      var sealed := Seal(NotifyRequestCompleted(started, m1.id).value);
      |sealed.matchers| == 1 && MatcherWith(sealed, m2.id).None? && MatcherWith(sealed, m1.id).Some?
  {
    StartCompleteExample(m1, m2);
    var live := m1.(stale := false);
    assert [live, m2][1..] == [m2] && [m2][1..] == [];
    assert Filter([live, m2], Live) == [live];
  }
}
