/**
 * PlaybackRequestMatcher (lib/commands/entities/PlaybackRequestMatcher.js):
 * one route a test declared. It keeps the responses recorded for the requests
 * the route intercepted, keyed by each request's fingerprint, counts how often
 * each response was recorded or served, how many requests are still in flight,
 * and whether it was restored from disk without being declared again (stale).
 */
module RequestMatcher {
  import opened Wrappers
  import opened JsValues
  import opened Errors
  import opened Json
  import opened Env
  import opened MatcherString
  import opened RequestMatcherId
  import opened InterceptedResponseId
  import opened PlaybackResponse
  import opened ResponseTable
  import opened KeyedList
  import JsonParse

  /** The private fields, the responses map as its entries in insertion order, and the `stale` flag. */
  datatype Matcher = Matcher(
    id: Value, httpMethod: Value, matcher: Value, minTimes: Value, ignoredAttributes: Value,
    entries: seq<Entry<Response>>, inflight: nat, stale: bool)

  /**
   * The two- and three-argument constructor: a route declaration. The method
   * must be a string and the matcher truthy; the options, `{}` by default,
   * give the minimum number of calls (1 unless set) and the request
   * attributes the fingerprints ignore (none unless set). Reading the
   * options fails when they are `null`.
   */
  function FromDeclaration(env: Env, httpMethod: Value, matcher: Value, options: Value): (r: Outcome<Matcher>)
    ensures !httpMethod.Str? || !Truthy(matcher) ==> r == Err(InvalidArguments)
    ensures httpMethod.Str? && Truthy(matcher) ==>
      (r.Ok? <==> GetMatcherAsString(matcher).Ok? && !Nullish(options))
    ensures httpMethod.Str? && Truthy(matcher) && GetMatcherAsString(matcher).Err? ==>
      r == Err(GetMatcherAsString(matcher).error)
    ensures r.Ok? ==> r.value == Matcher(
      Str(GetRequestMatcherId(env, httpMethod, matcher, options).value), httpMethod,
      Str(GetMatcherAsString(matcher).value), Coalesce(Get(options, "minTimes"), Num(1)),
      Coalesce(Get(Get(options, "recording"), "matchingIgnores"), Arr([])), [], 0, false)
  {
    if !httpMethod.Str? || !Truthy(matcher) then Err(InvalidArguments)
    else
      var id :- GetRequestMatcherId(env, httpMethod, matcher, options);
      var text := GetMatcherAsString(matcher).value;
      if Nullish(options) then Err(TypeError("Cannot read properties of " + ToText(options) + " (reading 'minTimes')"))
      else
        Ok(Matcher(Str(id), httpMethod, Str(text), Coalesce(Get(options, "minTimes"), Num(1)),
          Coalesce(Get(Get(options, "recording"), "matchingIgnores"), Arr([])), [], 0, false))
  }

  /** One stored response: the serialized response with the fingerprint it is filed under. */
  function ParseEntry(data: Value): (r: Outcome<Entry<Response>>)
    ensures r.Ok? <==> Deserialize(data).Ok?
    ensures r.Ok? ==> r.value == Entry(Get(data, "id"), Deserialize(data).value, 0)
  {
    var response :- Deserialize(data);
    Ok(Entry(Get(data, "id"), response, 0))
  }

  /** `new PlaybackResponse(entry)` for each stored entry: the first failure ends it. */
  function ParseEntries(items: seq<Value>): (r: Outcome<seq<Entry<Response>>>)
    ensures r.Ok? <==> forall i :: 0 <= i < |items| ==> Deserialize(items[i]).Ok?
    ensures r.Ok? ==> |r.value| == |items|
    ensures r.Ok? ==> forall i :: 0 <= i < |items| ==> r.value[i] == ParseEntry(items[i]).value
  {
    if |items| == 0 then Ok([])
    else
      var first :- ParseEntry(items[0]);
      var rest :- ParseEntries(items[1..]);
      assert forall i :: 1 <= i < |items| ==> items[i] == items[1..][i - 1];
      Ok([first] + rest)
  }

  /**
   * `responses.forEach(entry => map.set(response.id, new PlaybackResponse(entry)))`:
   * every entry is parsed and filed under its `id`, a later one replacing an
   * earlier one with the same `id` in its place.
   */
  function Restore(items: seq<Value>): (r: Outcome<seq<Entry<Response>>>)
    ensures r.Ok? <==> forall i :: 0 <= i < |items| ==> Deserialize(items[i]).Ok?
    ensures r.Ok? ==> DistinctIds(r.value)
    ensures r.Ok? ==> forall i :: 0 <= i < |r.value| ==> r.value[i].hits == 0
  {
    var parsed :- ParseEntries(items);
    var r := PutAll([], parsed, EntryId);
    DistinctIdsAreKeys(r);
    assert forall i :: 0 <= i < |r| ==> r[i].hits == 0 by {
      forall i | 0 <= i < |r| ensures r[i].hits == 0 {
        assert r[i] in r;
        var k :| 0 <= k < |parsed| && parsed[k] == r[i];
      }
    }
    Ok(r)
  }

  /** The restored table holds every stored fingerprint, the last entry parsed under each, and nothing else. */
  lemma RestoreKeepsLast(items: seq<Value>)
    requires Restore(items).Ok?
    ensures ParseEntries(items).Ok? && KeepsLast(ParseEntries(items).value, EntryId, Restore(items).value)
  {
    PutAllKeepsLastAll(ParseEntries(items).value, EntryId);
  }

  /**
   * deserialize: the fields are taken as they are, every stored response is
   * filed under its `id` with no hits, and the matcher is stale until a test
   * declares it again. `responses` must be an array.
   */
  function DeserializeMatcher(data: Value): (r: Outcome<Matcher>)
    ensures Nullish(data) || !Get(data, "responses").Arr? ==> r.Err? && r.error.TypeError?
    ensures !Nullish(data) && Get(data, "responses").Arr? ==>
      (r.Ok? <==> forall i :: 0 <= i < |Get(data, "responses").items| ==> Deserialize(Get(data, "responses").items[i]).Ok?)
    ensures r.Ok? ==> (r.value.id == Get(data, "id") && r.value.httpMethod == Get(data, "method")
      && r.value.matcher == Get(data, "matcher") && r.value.minTimes == Get(data, "minTimes")
      && r.value.ignoredAttributes == Get(data, "ignoredAttributes"))
    ensures r.Ok? ==> r.value.stale && r.value.inflight == 0 && DistinctIds(r.value.entries)
    ensures r.Ok? ==> forall i :: 0 <= i < |r.value.entries| ==> r.value.entries[i].hits == 0
  {
    if Nullish(data) then Err(TypeError("Cannot read properties of " + ToText(data) + " (reading 'id')"))
    else
      match Get(data, "responses")
      case Arr(items) =>
        var entries :- Restore(items);
        Ok(Matcher(Get(data, "id"), Get(data, "method"), Get(data, "matcher"), Get(data, "minTimes"),
          Get(data, "ignoredAttributes"), entries, 0, true))
      case _ => Err(TypeError("responses.forEach is not a function"))
  }

  /**
   * The constructor: one argument is a serialized matcher, two or three are
   * a route declaration (a missing or `undefined` third argument is `{}`).
   */
  function NewMatcher(env: Env, args: seq<Value>): (r: Outcome<Matcher>)
    ensures |args| == 1 ==> r == DeserializeMatcher(args[0])
    ensures |args| == 2 ==> r == FromDeclaration(env, args[0], args[1], Obj([]))
    ensures |args| == 3 ==> r == FromDeclaration(env, args[0], args[1], if args[2].Undefined? then Obj([]) else args[2])
    ensures |args| == 0 || |args| > 3 ==> r == Err(UnsupportedNumberOfArguments(|args|))
    ensures r.Ok? ==> DistinctIds(r.value.entries) && r.value.inflight == 0
  {
    if |args| == 1 then DeserializeMatcher(args[0])
    else if |args| == 2 || |args| == 3 then
      var options := if |args| == 3 && !args[2].Undefined? then args[2] else Obj([]);
      FromDeclaration(env, args[0], args[1], options)
    else Err(UnsupportedNumberOfArguments(|args|))
  }

  /** notifyRequestStarted: one more request in flight, and the matcher is in use again. */
  function NotifyRequestStarted(m: Matcher): (r: Matcher)
    ensures r.inflight == m.inflight + 1 && !r.stale
    ensures r.(inflight := m.inflight, stale := m.stale) == m
  {
    m.(inflight := m.inflight + 1, stale := false)
  }

  /** notifyRequestCompleted: one request fewer in flight; with none in flight it fails. */
  function NotifyRequestCompleted(m: Matcher): (r: Outcome<Matcher>)
    ensures r.Err? <==> m.inflight == 0
    ensures r.Err? ==> r.error == NoRequestsInflight
    ensures r.Ok? ==> r.value.inflight + 1 == m.inflight && r.value.(inflight := m.inflight) == m
  {
    if m.inflight <= 0 then Err(NoRequestsInflight)
    else Ok(m.(inflight := m.inflight - 1))
  }

  /**
   * addResponse, with each entry its own record: the response is built from
   * its parts and the request fingerprinted with the matcher's ignored
   * attributes. A fingerprint seen before keeps its first response and
   * counts one more hit; a new one is filed with one hit. No other entry
   * changes.
   */
  function AddResponse(env: Env, m: Matcher, statusCode: Value, statusMessage: Value, body: Value, headers: Value, request: Value): (r: Outcome<Matcher>)
    ensures r.Ok? <==> Build(statusCode, statusMessage, body, headers).Ok? && GetInterceptedResponseId(env, request, m.ignoredAttributes).Ok?
    ensures Build(statusCode, statusMessage, body, headers).Err? ==> r == Err(Build(statusCode, statusMessage, body, headers).error)
    ensures Build(statusCode, statusMessage, body, headers).Ok? && GetInterceptedResponseId(env, request, m.ignoredAttributes).Err? ==>
      r == Err(GetInterceptedResponseId(env, request, m.ignoredAttributes).error)
    ensures r.Ok? ==> r.value.(entries := m.entries) == m
    ensures r.Ok? ==> (r.value.entries ==
      File(m.entries, Str(GetInterceptedResponseId(env, request, m.ignoredAttributes).value), Build(statusCode, statusMessage, body, headers).value))
  {
    var response :- Build(statusCode, statusMessage, body, headers);
    var fingerprint :- GetInterceptedResponseId(env, request, m.ignoredAttributes);
    Ok(m.(entries := File(m.entries, Str(fingerprint), response)))
  }

  /**
   * addResponse as the source writes it: the response is built with six
   * arguments (the request and the ignored attributes after the four response
   * parts), which the PlaybackResponse constructor refuses. Were that to pass,
   * the response it builds has no `id` to file it under and no `addHit` to
   * count with.
   */
  function AddResponseAsWritten(m: Matcher, statusCode: Value, statusMessage: Value, body: Value, headers: Value, request: Value): (r: Outcome<Matcher>)
    ensures r == Err(InvalidNumberOfArguments(6))
  {
    match NewResponse([statusCode, statusMessage, body, headers, request, m.ignoredAttributes])
    case Err(e) => Err(e)
    case Ok(_) => Err(TypeError("response.addHit is not a function"))
  }

  /**
   * getResponse: the entry filed under `responseId`, its hits counted up by
   * one; an unknown id gives nothing and changes nothing.
   */
  function GetResponse(m: Matcher, responseId: Value): (r: (Option<Entry<Response>>, Matcher))
    ensures Find(m.entries, EntryId, responseId).None? ==> r == (None, m)
    ensures Find(m.entries, EntryId, responseId).Some? ==>
      r.0 == Some(Find(m.entries, EntryId, responseId).value.(hits := Find(m.entries, EntryId, responseId).value.hits + 1))
    ensures r.1.(entries := m.entries) == m
  {
    match Find(m.entries, EntryId, responseId)
    case None => (None, m)
    case Some(e) => (Some(e.(hits := e.hits + 1)), m.(entries := CountHit(m.entries, responseId)))
  }

  /**
   * JavaScript's `Number(v)` for the values that convert to an integer;
   * `None` stands for NaN. A string converts when it is empty or all digits.
   * An array converts through its `join(",")` text: no elements read as the
   * empty string, one element as its own text (nothing for null and
   * undefined), and two or more contain a comma.
   */
  function NumberOf(v: Value): (r: Option<int>)
    ensures v.Num? ==> r == Some(v.n)
    ensures v.Undefined? || v.Obj? || v.Func? || v.RegExp? || v.Binary? ==> r.None?
    ensures v.Arr? && |v.items| == 0 ==> r == Some(0)
    ensures v.Arr? && |v.items| > 1 ==> r.None?
    ensures v.Arr? && |v.items| == 1 ==> r == (if Nullish(v.items[0]) then Some(0) else if v.items[0].Bool? then None else NumberOf(v.items[0]))
    decreases v
  {
    match v
    case Null => Some(0)
    case Bool(b) => Some(if b then 1 else 0)
    case Num(n) => Some(n)
    case Str(s) =>
      if s == "" then Some(0)
      else if JsonParse.LeadingDigits(s) == |s| then Some(JsonParse.DigitsValue(s))
      else None
    case Arr(items) =>
      if |items| == 0 then Some(0)
      else if |items| > 1 then None
      else if Nullish(items[0]) then Some(0)
      else if items[0].Bool? then None
      else NumberOf(items[0])
    case _ => None
  }

  /** `hits < minTimes`: false when `minTimes` is NaN. */
  predicate Below(hits: nat, minTimes: Value)
  {
    NumberOf(minTimes).Some? && hits < NumberOf(minTimes).value
  }

  /**
   * isPending: a stale matcher never waits; one with requests in flight
   * always does; otherwise it waits until its entries were used `minTimes`
   * times in all.
   */
  predicate IsPending(m: Matcher)
  {
    if m.stale then false
    else if m.inflight > 0 then true
    else Below(TotalHits(m.entries), m.minTimes)
  }

  /** `response.serialize()` for one entry: the serialized response, with the entry's `id` first. */
  function SerializeEntry(e: Entry<Response>): (r: Outcome<Value>)
    ensures r.Ok? <==> Serialize(e.response).Ok?
    ensures r.Ok? ==> r.value == Obj([Member("id", e.id)] + Serialize(e.response).value.members)
  {
    var stored :- Serialize(e.response);
    Ok(Obj([Member("id", e.id)] + stored.members))
  }

  /** `.map(response => response.serialize())` */
  function SerializeEntries(entries: seq<Entry<Response>>): (r: Outcome<seq<Value>>)
    ensures r.Ok? <==> forall i :: 0 <= i < |entries| ==> Serialize(entries[i].response).Ok?
    ensures r.Ok? ==> |r.value| == |entries|
    ensures r.Ok? ==> forall i :: 0 <= i < |entries| ==> r.value[i] == SerializeEntry(entries[i]).value
  {
    if |entries| == 0 then Ok([])
    else
      var first :- SerializeEntry(entries[0]);
      var rest :- SerializeEntries(entries[1..]);
      assert forall i :: 1 <= i < |entries| ==> entries[i] == entries[1..][i - 1];
      Ok([first] + rest)
  }

  /**
   * serialize: the declaration fields and the responses that were used; the
   * hit counts, the requests in flight and the stale flag are not kept.
   */
  function SerializeMatcher(m: Matcher): (r: Outcome<Value>)
    ensures r.Ok? <==> forall x :: x in Recorded(m.entries) ==> Serialize(x.response).Ok?
    ensures r.Ok? ==> r.value == Obj([Member("id", m.id), Member("method", m.httpMethod), Member("matcher", m.matcher),
      Member("minTimes", m.minTimes), Member("ignoredAttributes", m.ignoredAttributes),
      Member("responses", Arr(SerializeEntries(Recorded(m.entries)).value))])
  {
    var responses :- SerializeEntries(Recorded(m.entries));
    Ok(Obj([Member("id", m.id), Member("method", m.httpMethod), Member("matcher", m.matcher),
      Member("minTimes", m.minTimes), Member("ignoredAttributes", m.ignoredAttributes),
      Member("responses", Arr(responses))]))
  }

  // ---------------------------------------------------------------------------
  // Properties
  // ---------------------------------------------------------------------------

  /**
   * getResponse on a known id counts one hit on that entry only; the entry
   * it returns is the one now filed. The keys stay as they were.
   */
  lemma GetResponseCounts(m: Matcher, responseId: Value)
    requires Find(m.entries, EntryId, responseId).Some?
    ensures var r := GetResponse(m, responseId);
      Find(r.1.entries, EntryId, responseId) == r.0
      && (forall id :: id != responseId ==> Find(r.1.entries, EntryId, id) == Find(m.entries, EntryId, id))
      && TotalHits(r.1.entries) == TotalHits(m.entries) + 1
      && SameIds(r.1.entries, m.entries)
  {
    var r := GetResponse(m, responseId);
    var e := Find(m.entries, EntryId, responseId).value;
    assert r == (Some(e.(hits := e.hits + 1)), m.(entries := CountHit(m.entries, responseId)));
    assert e.id == responseId;
    FindCounted(m.entries, e);
    TotalAfterCount(m.entries, responseId);
    forall id | id != responseId ensures Find(r.1.entries, EntryId, id) == Find(m.entries, EntryId, id) {
      FindNotCounted(m.entries, responseId, id);
    }
  }

  /** A request that starts and completes leaves the count in flight where it was. */
  lemma StartThenComplete(m: Matcher)
    ensures NotifyRequestCompleted(NotifyRequestStarted(m)) == Ok(m.(stale := false))
  {
  }

  /**
   * Recording or serving a response never makes a matcher pending: the hits
   * only grow, and a matcher waits only while they are below `minTimes`.
   */
  lemma HitsNeverAddPending(env: Env, m: Matcher, statusCode: Value, statusMessage: Value, body: Value, headers: Value, request: Value, responseId: Value)
    ensures var added := AddResponse(env, m, statusCode, statusMessage, body, headers, request);
      added.Ok? && IsPending(added.value) ==> IsPending(m)
    ensures IsPending(GetResponse(m, responseId).1) ==> IsPending(m)
  {
    var added := AddResponse(env, m, statusCode, statusMessage, body, headers, request);
    if added.Ok? {
      var key := Str(GetInterceptedResponseId(env, request, m.ignoredAttributes).value);
      var response := Build(statusCode, statusMessage, body, headers).value;
      FileCountsOne(m.entries, key, response);
    }
    if Find(m.entries, EntryId, responseId).Some? {
      GetResponseCounts(m, responseId);
    }
  }

  /** With nothing in flight and a numeric `minTimes`, a matcher waits exactly while fewer hits were counted. */
  lemma PendingUntilMinTimes(m: Matcher, n: int)
    requires !m.stale && m.inflight == 0 && m.minTimes == Num(n)
    ensures IsPending(m) <==> TotalHits(m.entries) < n
  {
  }

  /**
   * A `minTimes` given as an array compares through its text: `[2]` waits
   * for two hits, `[]` reads as 0 and never waits, and `[1, 2]` is NaN and
   * never waits.
   */
  lemma ArrayMinTimes(m: Matcher)
    requires !m.stale && m.inflight == 0
    ensures IsPending(m.(minTimes := Arr([Num(2)]))) <==> TotalHits(m.entries) < 2
    ensures !IsPending(m.(minTimes := Arr([])))
    ensures !IsPending(m.(minTimes := Arr([Num(1), Num(2)])))
  {
    assert NumberOf(Arr([Num(2)])) == Some(2);
  }

  /** The id member in front of a serialized response is invisible to the five fields deserialize reads. */
  lemma IdMemberIgnored(id: Value, stored: seq<Member>)
    ensures forall k :: k != "id" ==> Get(Obj([Member("id", id)] + stored), k) == Get(Obj(stored), k)
    ensures Deserialize(Obj([Member("id", id)] + stored)) == Deserialize(Obj(stored))
  {
    assert ([Member("id", id)] + stored)[1..] == stored;
  }

  /** One used entry survives serialize then deserialize, with its hits cleared. */
  lemma EntryRoundTrip(e: Entry<Response>)
    requires Stable(e.response)
    ensures SerializeEntry(e).Ok?
    ensures ParseEntry(SerializeEntry(e).value) == Ok(e.(hits := 0))
  {
    var stored := Serialize(e.response).value;
    IdMemberIgnored(e.id, stored.members);
    assert Obj(stored.members) == stored;
  }

  /** Entries of stable responses survive serialize then parse, with their hits cleared. */
  lemma {:induction false} EntriesRoundTrip(entries: seq<Entry<Response>>)
    requires forall i :: 0 <= i < |entries| ==> Stable(entries[i].response)
    ensures SerializeEntries(entries).Ok?
    ensures ParseEntries(SerializeEntries(entries).value) == Ok(Unused(entries))
    decreases |entries|
  {
    if |entries| > 0 {
      var items := SerializeEntries(entries).value;
      EntryRoundTrip(entries[0]);
      EntriesRoundTrip(entries[1..]);
      assert items[1..] == SerializeEntries(entries[1..]).value;
      assert Unused(entries) == [entries[0].(hits := 0)] + Unused(entries[1..]);
    }
  }

  /** Reading back the six fields of a serialized matcher. */
  lemma MatcherFields(id: Value, httpMethod: Value, matcher: Value, minTimes: Value, ignored: Value, responses: Value)
    ensures var data := Obj([Member("id", id), Member("method", httpMethod), Member("matcher", matcher),
      Member("minTimes", minTimes), Member("ignoredAttributes", ignored), Member("responses", responses)]);
      Get(data, "id") == id && Get(data, "method") == httpMethod && Get(data, "matcher") == matcher
      && Get(data, "minTimes") == minTimes && Get(data, "ignoredAttributes") == ignored && Get(data, "responses") == responses
  {
    var ms := [Member("id", id), Member("method", httpMethod), Member("matcher", matcher),
      Member("minTimes", minTimes), Member("ignoredAttributes", ignored), Member("responses", responses)];
    var ms1 := ms[1..];
    var ms2 := ms1[1..];
    var ms3 := ms2[1..];
    var ms4 := ms3[1..];
    assert ms4 == [Member("ignoredAttributes", ignored), Member("responses", responses)];
    assert ms4[1..] == [Member("responses", responses)];
    assert Lookup(ms, "method") == Lookup(ms1, "method");
    assert Lookup(ms, "matcher") == Lookup(ms1, "matcher") == Lookup(ms2, "matcher");
    assert Lookup(ms, "minTimes") == Lookup(ms1, "minTimes") == Lookup(ms2, "minTimes") == Lookup(ms3, "minTimes");
    assert Lookup(ms, "ignoredAttributes") == Lookup(ms1, "ignoredAttributes") == Lookup(ms2, "ignoredAttributes")
      == Lookup(ms3, "ignoredAttributes") == Lookup(ms4, "ignoredAttributes");
    assert Lookup(ms, "responses") == Lookup(ms1, "responses") == Lookup(ms2, "responses")
      == Lookup(ms3, "responses") == Lookup(ms4, "responses") == Lookup(ms4[1..], "responses");
  }

  /**
   * A matcher survives serialize then deserialize with its declaration
   * fields, keeping only the responses that were used, in order and with
   * their hits cleared; it comes back stale with nothing in flight.
   */
  lemma MatcherRoundTrip(m: Matcher)
    requires DistinctIds(m.entries)
    requires forall x :: x in m.entries && x.hits > 0 ==> Stable(x.response)
    ensures SerializeMatcher(m).Ok?
    ensures DeserializeMatcher(SerializeMatcher(m).value) ==
      Ok(m.(entries := Unused(Recorded(m.entries)), inflight := 0, stale := true))
  {
    var used := Recorded(m.entries);
    RestoreUsed(used);
    var items := SerializeEntries(used).value;
    ReadMatcherBack(m.id, m.httpMethod, m.matcher, m.minTimes, m.ignoredAttributes, items, Unused(used));
  }

  /** The used entries, serialized and restored, come back in order with their hits cleared. */
  lemma RestoreUsed(used: seq<Entry<Response>>)
    requires DistinctIds(used)
    requires forall i :: 0 <= i < |used| ==> Stable(used[i].response)
    ensures SerializeEntries(used).Ok?
    ensures Restore(SerializeEntries(used).value) == Ok(Unused(used))
  {
    EntriesRoundTrip(used);
    SameIdsDistinct(Unused(used), used);
    RestoreDistinct(SerializeEntries(used).value, Unused(used));
  }

  /** Stored entries whose ids are already unique are restored as parsed, in order. */
  lemma RestoreDistinct(items: seq<Value>, parsed: seq<Entry<Response>>)
    requires ParseEntries(items) == Ok(parsed) && DistinctIds(parsed)
    ensures Restore(items) == Ok(parsed)
  {
    assert [] + parsed == parsed;
    DistinctIdsAreKeys(parsed);
    PutAllFresh([], parsed, EntryId);
  }

  /** A serialized matcher whose stored responses restore to `entries` deserializes to a stale matcher holding them. */
  lemma ReadMatcherBack(id: Value, httpMethod: Value, matcher: Value, minTimes: Value, ignored: Value,
                        items: seq<Value>, entries: seq<Entry<Response>>)
    requires Restore(items) == Ok(entries)
    ensures DeserializeMatcher(Obj([Member("id", id), Member("method", httpMethod), Member("matcher", matcher),
      Member("minTimes", minTimes), Member("ignoredAttributes", ignored), Member("responses", Arr(items))]))
      == Ok(Matcher(id, httpMethod, matcher, minTimes, ignored, entries, 0, true))
  {
    MatcherFields(id, httpMethod, matcher, minTimes, ignored, Arr(items));
  }

  /** The source's addResponse never records anything; the entry model records whenever the parts are valid. */
  lemma AsWrittenNeverRecords(env: Env, m: Matcher, statusCode: Value, statusMessage: Value, body: Value, headers: Value, request: Value)
    requires Build(statusCode, statusMessage, body, headers).Ok? && GetInterceptedResponseId(env, request, m.ignoredAttributes).Ok?
    ensures AddResponseAsWritten(m, statusCode, statusMessage, body, headers, request).Err?
    ensures AddResponse(env, m, statusCode, statusMessage, body, headers, request).Ok?
  {
  }

  // ---------------------------------------------------------------------------
  // Scenarios from the matcher's tests
  // ---------------------------------------------------------------------------

  /** A declaration without options: the matcher text as given, at least one call, nothing ignored. */
  lemma ConstructorExample(env: Env)
    ensures NewMatcher(env, [Str("GET"), Str("http://example.com/")]) == Ok(Matcher(
      Str(GetRequestMatcherId(env, Str("GET"), Str("http://example.com/"), Obj([])).value),
      Str("GET"), Str("http://example.com/"), Num(1), Arr([]), [], 0, false))
  {
  }

  /** A method that is not a string, a missing matcher, or no arguments at all are refused. */
  lemma InvalidArgumentsExample(env: Env)
    ensures NewMatcher(env, [Num(1), Str("/")]) == Err(InvalidArguments)
    ensures NewMatcher(env, [Str("GET"), Null, Obj([Member("minTimes", Num(5))])]) == Err(InvalidArguments)
    ensures NewMatcher(env, []) == Err(UnsupportedNumberOfArguments(0))
  {
  }

  /**
   * A matcher that must be called twice is pending after one recorded
   * response and settled once that response is served.
   */
  lemma NewRequestPendingExample(env: Env, id: Value, headers: Value, request: Value)
    requires GetInterceptedResponseId(env, request, Arr([])).Ok?
    ensures var m := Matcher(id, Str("GET"), Str("http://example.com/"), Num(2), Arr([]), [], 0, false);
      var key := Str(GetInterceptedResponseId(env, request, Arr([])).value);
      var added := AddResponse(env, m, Num(200), Str("OK"), Str("body-string"), headers, request);
      added.Ok? && IsPending(added.value) && !IsPending(GetResponse(added.value, key).1)
  {
    var m := Matcher(id, Str("GET"), Str("http://example.com/"), Num(2), Arr([]), [], 0, false);
    var key := Str(GetInterceptedResponseId(env, request, Arr([])).value);
    var response := Build(Num(200), Str("OK"), Str("body-string"), headers).value;
    FiledOnceThenServed(m, key, response);
  }

  /** A matcher that waits for two calls still waits after its first response is filed, and not once that response is served. */
  lemma FiledOnceThenServed(m: Matcher, key: Value, response: Response)
    requires m.entries == [] && !m.stale && m.inflight == 0 && m.minTimes == Num(2)
    ensures var filed := m.(entries := File([], key, response));
      IsPending(filed) && !IsPending(GetResponse(filed, key).1)
  {
    var filed := m.(entries := File([], key, response));
    FileCountsOne([], key, response);
    FileNew([], key, response);
    GetResponseCounts(filed, key);
  }

  /**
   * A restored matcher whose stored form names its minimum `atLeast` (the
   * tests' vocabulary) has no `minTimes`: it waits only while requests are
   * in flight, whatever the hits.
   */
  lemma RestoredPendingExample(r1: Response, r2: Response)
    ensures var m := Matcher(Str("mock-id"), Undefined, Undefined, Undefined, Undefined,
      [Entry(Str("id-1"), r1, 0), Entry(Str("id-2"), r2, 0)], 0, true);
      var started := NotifyRequestStarted(NotifyRequestStarted(NotifyRequestStarted(m)));
      var one := GetResponse(NotifyRequestCompleted(started).value, Str("id-1")).1;
      var two := GetResponse(NotifyRequestCompleted(one).value, Str("id-2")).1;
      var three := NotifyRequestCompleted(two).value;
      !IsPending(m) && IsPending(one) && IsPending(two) && !IsPending(three) && TotalHits(three.entries) == 2
  {
    var m := Matcher(Str("mock-id"), Undefined, Undefined, Undefined, Undefined,
      [Entry(Str("id-1"), r1, 0), Entry(Str("id-2"), r2, 0)], 0, true);
    var started := NotifyRequestStarted(NotifyRequestStarted(NotifyRequestStarted(m)));
    assert m.entries[1..][1..] == [];
    assert TotalHits(m.entries[1..][1..]) == 0;
    assert TotalHits(m.entries[1..]) == 0;
    assert TotalHits(m.entries) == 0;
    assert Find(m.entries, EntryId, Str("id-1")).Some?;
    assert Find(m.entries, EntryId, Str("id-2")).Some? by {
      assert m.entries[1..][0].id == Str("id-2");
    }
    var m1 := NotifyRequestCompleted(started).value;
    GetResponseCounts(m1, Str("id-1"));
    var one := GetResponse(m1, Str("id-1")).1;
    assert one.inflight == 2 && TotalHits(one.entries) == 1;
    var m2 := NotifyRequestCompleted(one).value;
    assert Find(m2.entries, EntryId, Str("id-2")) == Find(m.entries, EntryId, Str("id-2"));
    GetResponseCounts(m2, Str("id-2"));
  }
}
