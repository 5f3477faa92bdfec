/**
 * PlaybackResponseCollection (lib/commands/entities/PlaybackResponseCollection.js):
 * the responses recorded for one request fingerprint, replayed in the order
 * they were recorded. `hits` counts the responses handed out so far.
 */
module ResponseCollection {
  import opened Wrappers
  import opened JsValues
  import opened Errors
  import opened Env
  import opened InterceptedResponseId
  import opened PlaybackResponse

  /** The private fields: the fingerprint, the request URL, the replay position and the responses. */
  datatype Collection = Collection(id: Value, url: Value, hits: nat, responses: seq<Response>)

  /** No response has been handed out that was not recorded. */
  predicate Valid(c: Collection)
  {
    c.hits <= |c.responses|
  }

  /**
   * The two-argument constructor: a truthy request gives the collection its
   * fingerprint and URL; a falsy one leaves the id null and the URL empty.
   */
  function FromRequest(env: Env, request: Value, ignores: Value): (r: Outcome<Collection>)
    ensures !Truthy(request) ==> r == Ok(Collection(Null, Str(""), 0, []))
    ensures Truthy(request) ==> (r.Ok? <==> GetInterceptedResponseId(env, request, ignores).Ok?)
    ensures Truthy(request) && r.Ok? ==>
      r.value == Collection(Str(GetInterceptedResponseId(env, request, ignores).value), Get(request, "url"), 0, [])
    ensures r.Ok? ==> Valid(r.value)
  {
    if Truthy(request) then
      var id :- GetInterceptedResponseId(env, request, ignores);
      Ok(Collection(Str(id), Get(request, "url"), 0, []))
    else Ok(Collection(Null, Str(""), 0, []))
  }

  /** addHit */
  function AddHit(c: Collection): (r: Collection)
    ensures r.hits == c.hits + 1
    ensures r.id == c.id && r.url == c.url && r.responses == c.responses
  {
    c.(hits := c.hits + 1)
  }

  /**
   * addResponse: a new response built from its parts goes to the end. The
   * replay position does not move.
   */
  function AddResponse(c: Collection, statusCode: Value, statusMessage: Value, body: Value, headers: Value): (r: Outcome<Collection>)
    ensures r.Ok? <==> Build(statusCode, statusMessage, body, headers).Ok?
    ensures r.Err? ==> r.error == Build(statusCode, statusMessage, body, headers).error
    ensures r.Ok? ==> r.value.responses == c.responses + [Build(statusCode, statusMessage, body, headers).value]
    ensures r.Ok? ==> r.value.id == c.id && r.value.url == c.url && r.value.hits == c.hits
    ensures r.Ok? && Valid(c) ==> Valid(r.value)
  {
    var response :- Build(statusCode, statusMessage, body, headers);
    Ok(c.(responses := c.responses + [response]))
  }

  /**
   * getNextResponse: the response at the replay position, which then moves
   * on; past the last response it fails, naming the URL and the hits.
   */
  function GetNextResponse(c: Collection): (r: Outcome<(Response, Collection)>)
    ensures r.Err? <==> c.hits >= |c.responses|
    ensures r.Err? ==> r.error == NoMoreResponses(c.url, c.hits)
    ensures r.Ok? ==> r.value.0 == c.responses[c.hits] && r.value.1 == AddHit(c)
    ensures r.Ok? ==> Valid(r.value.1)
  {
    if c.hits > |c.responses| - 1 then Err(NoMoreResponses(c.url, c.hits))
    else Ok((c.responses[c.hits], AddHit(c)))
  }

  /** `responses.map(r => r.serialize())` */
  function SerializeAll(responses: seq<Response>): (r: Outcome<seq<Value>>)
    ensures r.Ok? <==> forall i :: 0 <= i < |responses| ==> Serialize(responses[i]).Ok?
    ensures r.Ok? ==> |r.value| == |responses|
    ensures r.Ok? ==> forall i :: 0 <= i < |responses| ==> r.value[i] == Serialize(responses[i]).value
  {
    if |responses| == 0 then Ok([])
    else
      var first :- Serialize(responses[0]);
      var rest :- SerializeAll(responses[1..]);
      assert forall i :: 1 <= i < |responses| ==> responses[i] == responses[1..][i - 1];
      Ok([first] + rest)
  }

  /** serialize: the id, the URL and the serialized responses; the hits are not kept. */
  function SerializeCollection(c: Collection): (r: Outcome<Value>)
    ensures r.Ok? <==> SerializeAll(c.responses).Ok?
    ensures r.Ok? ==> r.value == Obj([Member("id", c.id), Member("url", c.url), Member("responses", Arr(SerializeAll(c.responses).value))])
  {
    var responses :- SerializeAll(c.responses);
    Ok(Obj([Member("id", c.id), Member("url", c.url), Member("responses", Arr(responses))]))
  }

  /** `responses.forEach(data => push(new PlaybackResponse(data)))`: the first failure ends it. */
  function DeserializeAll(items: seq<Value>): (r: Outcome<seq<Response>>)
    ensures r.Ok? <==> forall i :: 0 <= i < |items| ==> Deserialize(items[i]).Ok?
    ensures r.Ok? ==> |r.value| == |items|
    ensures r.Ok? ==> forall i :: 0 <= i < |items| ==> r.value[i] == Deserialize(items[i]).value
  {
    if |items| == 0 then Ok([])
    else
      var first :- NewResponse([items[0]]);
      var rest :- DeserializeAll(items[1..]);
      assert forall i :: 1 <= i < |items| ==> items[i] == items[1..][i - 1];
      Ok([first] + rest)
  }

  /**
   * deserialize: the id and URL are taken as they are; `responses` must be an
   * array (anything else has no `forEach`). The replay starts from the top.
   */
  function DeserializeCollection(data: Value): (r: Outcome<Collection>)
    ensures Nullish(data) || !Get(data, "responses").Arr? ==> r.Err? && r.error.TypeError?
    ensures !Nullish(data) && Get(data, "responses").Arr? ==>
      (r.Ok? <==> DeserializeAll(Get(data, "responses").items).Ok?)
    ensures r.Ok? ==> r.value == Collection(Get(data, "id"), Get(data, "url"), 0, DeserializeAll(Get(data, "responses").items).value)
    ensures r.Ok? ==> Valid(r.value)
  {
    if Nullish(data) then Err(TypeError("Cannot destructure the serialized collection"))
    else
      match Get(data, "responses")
      case Arr(items) =>
        var responses :- DeserializeAll(items);
        Ok(Collection(Get(data, "id"), Get(data, "url"), 0, responses))
      case _ => Err(TypeError("responses.forEach is not a function"))
  }

  /** The constructor: one argument is a serialized collection, two are a request and its ignores. */
  function NewCollection(env: Env, args: seq<Value>): (r: Outcome<Collection>)
    ensures |args| == 1 ==> r == DeserializeCollection(args[0])
    ensures |args| == 2 ==> r == FromRequest(env, args[0], args[1])
    ensures |args| != 1 && |args| != 2 ==> r == Err(InvalidNumberOfArguments(|args|))
    ensures r.Ok? ==> Valid(r.value) && r.value.hits == 0
  {
    if |args| == 1 then DeserializeCollection(args[0])
    else if |args| == 2 then FromRequest(env, args[0], args[1])
    else Err(InvalidNumberOfArguments(|args|))
  }

  /** `k` calls of getNextResponse in a row: the responses handed out, and the collection after. */
  function Replay(c: Collection, k: nat): Outcome<(seq<Response>, Collection)>
    decreases k
  {
    if k == 0 then Ok(([], c))
    else
      var (first, next) :- GetNextResponse(c);
      var (rest, last) :- Replay(next, k - 1);
      Ok(([first] + rest, last))
  }

  /**
   * Replay order: from position `hits`, `k` calls succeed exactly when that
   * many responses are left, and hand out the next `k` responses in the order
   * they were recorded.
   */
  lemma {:induction false} ReplayInOrder(c: Collection, k: nat)
    requires Valid(c)
    ensures Replay(c, k).Ok? <==> c.hits + k <= |c.responses|
    ensures Replay(c, k).Ok? ==> Replay(c, k).value.0 == c.responses[c.hits..c.hits + k]
    ensures Replay(c, k).Ok? ==> Replay(c, k).value.1 == c.(hits := c.hits + k)
    ensures Replay(c, k).Err? ==> Replay(c, k).error == NoMoreResponses(c.url, if c.hits >= |c.responses| then c.hits else |c.responses|)
    decreases k
  {
    if k > 0 && c.hits < |c.responses| {
      var next := AddHit(c);
      ReplayInOrder(next, k - 1);
      assert GetNextResponse(c) == Ok((c.responses[c.hits], next));
      if c.hits + k <= |c.responses| {
        assert c.responses[c.hits..c.hits + k] == [c.responses[c.hits]] + c.responses[c.hits + 1..c.hits + k];
        assert next.(hits := next.hits + (k - 1)) == c.(hits := c.hits + k);
      }
    }
  }

  /** Responses added to a fresh collection are replayed in the order they were added, then the collection runs dry. */
  lemma RecordThenReplay(c: Collection, statusCode: Value, statusMessage: Value, body: Value, headers: Value)
    requires c.hits == |c.responses|
    requires Build(statusCode, statusMessage, body, headers).Ok?
    ensures var added := AddResponse(c, statusCode, statusMessage, body, headers).value;
      GetNextResponse(added).Ok?
      && GetNextResponse(added).value.0 == Build(statusCode, statusMessage, body, headers).value
      && GetNextResponse(GetNextResponse(added).value.1) == Err(NoMoreResponses(c.url, c.hits + 1))
  {
  }

  /** Reading back the three fields of a serialized collection. */
  lemma CollectionFields(id: Value, url: Value, responses: Value)
    ensures var data := Obj([Member("id", id), Member("url", url), Member("responses", responses)]);
      Get(data, "id") == id && Get(data, "url") == url && Get(data, "responses") == responses
  {
    var ms := [Member("id", id), Member("url", url), Member("responses", responses)];
    assert ms[1..][1..] == [ms[2]];
    assert "id" != "url" && "id" != "responses" && "url" != "responses";
    assert Lookup(ms, "responses") == Lookup(ms[1..], "responses") == Lookup(ms[1..][1..], "responses");
    assert Lookup(ms, "url") == Lookup(ms[1..], "url");
  }

  /**
   * A collection of stable responses survives serialize then deserialize,
   * except for the replay position, which starts again from the top.
   */
  lemma CollectionRoundTrip(c: Collection)
    requires forall i :: 0 <= i < |c.responses| ==> Stable(c.responses[i])
    ensures SerializeCollection(c).Ok?
    ensures DeserializeCollection(SerializeCollection(c).value) == Ok(c.(hits := 0))
  {
    var stored := SerializeAll(c.responses).value;
    CollectionFields(c.id, c.url, Arr(stored));
    var back := DeserializeAll(stored);
    assert back.Ok?;
    assert back.value == c.responses;
  }

  /** A response built from JSON-shaped parts is stable when its body survives the round trip. */
  lemma BuiltIsStable(statusCode: Value, statusMessage: Value, body: Value, headers: Value)
    requires Build(statusCode, statusMessage, body, headers).Ok?
    requires JsonParse.WellKeyed(body) && !PosesAsBuffer(body) && Restored(body) == body
    ensures Stable(Build(statusCode, statusMessage, body, headers).value)
  {
    SerializeRoundTrip(statusCode, statusMessage, body, headers);
  }

  /** The constructor refuses to be called without arguments. */
  lemma NoArgumentsExample(env: Env)
    ensures NewCollection(env, []) == Err(InvalidNumberOfArguments(0))
  {
  }

  /** Three recorded responses come back in order; the fourth request fails with three hits. */
  lemma ThreeResponsesExample(id: Value, url: Value, r1: Response, r2: Response, r3: Response)
    ensures var c := Collection(id, url, 0, [r1, r2, r3]);
      Replay(c, 3) == Ok(([r1, r2, r3], c.(hits := 3)))
      && GetNextResponse(c.(hits := 3)) == Err(NoMoreResponses(url, 3))
  {
    var c := Collection(id, url, 0, [r1, r2, r3]);
    ReplayInOrder(c, 3);
    assert c.responses[0..3] == [r1, r2, r3];
  }
}
