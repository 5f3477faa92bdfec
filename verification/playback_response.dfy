/**
 * PlaybackResponse (lib/commands/entities/PlaybackResponse.js): one recorded
 * response, with its body stored under a body type that says how to write it
 * to the playback file and read it back.
 */
module PlaybackResponse {
  import opened Wrappers
  import opened JsValues
  import opened Errors
  import opened Json
  import opened JsonParse
  import ArrayBufferFns

  /**
   * The private fields of the class. `bodyType` is `Null` for a falsy body and
   * otherwise the string a body type is named by.
   */
  datatype Response = Response(statusCode: Value, statusMessage: Value, body: Value, bodyType: Value, headers: Value)

  /** The `typeof` names `jsonStringableTypes` lists. */
  predicate IsStringable(typeName: string)
  {
    typeName == "string" || typeName == "number" || typeName == "boolean"
  }

  /** `body?.byteLength`: an `ArrayBuffer` knows its length; a plain object may carry the property. */
  function ByteLength(body: Value): Value
  {
    match body
    case Binary(bytes) => Num(|bytes|)
    case _ => Get(body, "byteLength")
  }

  /**
   * getResponseBodyType: an object with a finite `byteLength` is an
   * ArrayBuffer, any other object (null and arrays included) is JSON, a
   * string, number or boolean is named by its `typeof`, and anything else is
   * refused.
   */
  function GetResponseBodyType(body: Value): (r: Outcome<string>)
    ensures r.Ok? <==> TypeOf(body) == "object" || IsStringable(TypeOf(body))
    ensures r.Err? ==> r.error == UnsupportedBodyType(TypeOf(body))
    ensures r.Ok? ==> (r.value == "ArrayBuffer" <==> TypeOf(body) == "object" && ByteLength(body).Num?)
    ensures r.Ok? ==> (r.value == "json" <==> TypeOf(body) == "object" && !ByteLength(body).Num?)
    ensures r.Ok? && IsStringable(TypeOf(body)) ==> r.value == TypeOf(body)
    ensures body.Binary? ==> r == Ok("ArrayBuffer")
  {
    var bodyType := TypeOf(body);
    if bodyType == "object" then
      if ByteLength(body).Num? then Ok("ArrayBuffer") else Ok("json")
    else if IsStringable(bodyType) then Ok(bodyType)
    else Err(UnsupportedBodyType(bodyType))
  }

  /**
   * The bytes `new Uint8Array(body)` holds. For an ArrayBuffer they are its
   * bytes. Any other object is read as an array-like: `length` elements, each
   * converted to a byte. An object without a `length` gives an empty array;
   * the elements of one with a `length` are not modelled and give an empty
   * array here too.
   */
  function BytesOf(body: Value): (r: seq<byte>)
    ensures body.Binary? ==> r == body.bytes
  {
    match body
    case Binary(bytes) => bytes
    case _ => []
  }

  /** serializeResponseBody */
  function SerializeBody(body: Value, bodyType: Value): (r: Outcome<Value>)
    ensures bodyType.Null? ==> r == Ok(Undefined)
    ensures bodyType == Str("ArrayBuffer") ==> r == Ok(Str(ArrayBufferFns.Encode(BytesOf(body))))
    ensures bodyType == Str("json") ==> r.Ok? && (r.value.Str? <==> Stringify(body).Some?)
    ensures bodyType == Str("json") && Stringify(body).Some? ==> r == Ok(Str(Stringify(body).value))
    ensures bodyType.Str? && IsStringable(bodyType.s) ==> r == Ok(body)
    ensures r.Err? <==> !bodyType.Null? && !(bodyType.Str? && (bodyType.s == "ArrayBuffer" || bodyType.s == "json" || IsStringable(bodyType.s)))
    ensures r.Err? ==> r.error == CannotSerialize(bodyType)
  {
    if bodyType.Null? then Ok(Undefined)
    else if bodyType == Str("ArrayBuffer") then Ok(Str(ArrayBufferFns.Encode(BytesOf(body))))
    else if bodyType == Str("json") then
      Ok(match Stringify(body) case Some(text) => Str(text) case None => Undefined)
    else if bodyType.Str? && IsStringable(bodyType.s) then Ok(body)
    else Err(CannotSerialize(bodyType))
  }

  /**
   * deserializeResponseBody. The base64 decoder calls `replace` on its input,
   * so anything but a string fails there; `JSON.parse` reads the text of its
   * input.
   */
  function DeserializeBody(body: Value, bodyType: Value): (r: Outcome<Value>)
    ensures bodyType.Null? ==> r == Ok(Undefined)
    ensures bodyType == Str("ArrayBuffer") && body.Str? ==> r == Ok(Binary(ArrayBufferFns.Decode(body.s)))
    ensures bodyType == Str("ArrayBuffer") && !body.Str? ==> r.Err? && r.error.TypeError?
    ensures bodyType == Str("json") ==> r == Parse(ToText(body))
    ensures bodyType.Str? && IsStringable(bodyType.s) ==> r == Ok(body)
    ensures !bodyType.Null? && !(bodyType.Str? && (bodyType.s == "ArrayBuffer" || bodyType.s == "json" || IsStringable(bodyType.s)))
      ==> r == Err(CannotDeserialize(bodyType))
  {
    if bodyType.Null? then Ok(Undefined)
    else if bodyType == Str("ArrayBuffer") then
      if body.Str? then Ok(Binary(ArrayBufferFns.Decode(body.s)))
      else Err(TypeError("b64.replace is not a function"))
    else if bodyType == Str("json") then Parse(ToText(body))
    else if bodyType.Str? && IsStringable(bodyType.s) then Ok(body)
    else Err(CannotDeserialize(bodyType))
  }

  /** The four-argument constructor: the body type is worked out only for a truthy body. */
  function Build(statusCode: Value, statusMessage: Value, body: Value, headers: Value): (r: Outcome<Response>)
    ensures !Truthy(body) ==> r == Ok(Response(statusCode, statusMessage, body, Null, headers))
    ensures Truthy(body) ==> (r.Ok? <==> GetResponseBodyType(body).Ok?)
    ensures Truthy(body) && r.Ok? ==> r.value == Response(statusCode, statusMessage, body, Str(GetResponseBodyType(body).value), headers)
    ensures r.Err? ==> r.error == UnsupportedBodyType(TypeOf(body))
  {
    if Truthy(body) then
      var bodyType :- GetResponseBodyType(body);
      Ok(Response(statusCode, statusMessage, body, Str(bodyType), headers))
    else Ok(Response(statusCode, statusMessage, body, Null, headers))
  }

  /** The property names of a serialized response, in the order `serialize` writes them. */
  const Fields: seq<string> := ["statusCode", "statusMessage", "body", "bodyType", "headers"]

  /** serialize: the five fields as a plain object, the body in its stored form. */
  function Serialize(r: Response): (out: Outcome<Value>)
    ensures out.Err? <==> SerializeBody(r.body, r.bodyType).Err?
    ensures out.Ok? ==> out.value.Obj? && |out.value.members| == 5
    ensures out.Ok? ==> forall i :: 0 <= i < 5 ==> out.value.members[i].key == Fields[i]
    ensures out.Ok? ==> out.value.members[2].value == SerializeBody(r.body, r.bodyType).value
  {
    var body :- SerializeBody(r.body, r.bodyType);
    Ok(Obj([Member("statusCode", r.statusCode), Member("statusMessage", r.statusMessage),
            Member("body", body), Member("bodyType", r.bodyType), Member("headers", r.headers)]))
  }

  /**
   * deserialize: the destructuring of its argument fails on null and
   * undefined; every field is read by name and the body is restored by type.
   */
  function Deserialize(data: Value): (r: Outcome<Response>)
    ensures Nullish(data) ==> r.Err? && r.error.TypeError?
    ensures !Nullish(data) ==> (r.Ok? <==> DeserializeBody(Get(data, "body"), Get(data, "bodyType")).Ok?)
    ensures r.Ok? ==> r.value == Response(Get(data, "statusCode"), Get(data, "statusMessage"),
      DeserializeBody(Get(data, "body"), Get(data, "bodyType")).value, Get(data, "bodyType"), Get(data, "headers"))
  {
    if Nullish(data) then Err(TypeError("Cannot destructure the serialized response"))
    else
      var body :- DeserializeBody(Get(data, "body"), Get(data, "bodyType"));
      Ok(Response(Get(data, "statusCode"), Get(data, "statusMessage"), body, Get(data, "bodyType"), Get(data, "headers")))
  }

  /** The constructor: one argument is a serialized response, four are its parts, any other count is refused. */
  function NewResponse(args: seq<Value>): (r: Outcome<Response>)
    ensures |args| == 1 ==> r == Deserialize(args[0])
    ensures |args| == 4 ==> r == Build(args[0], args[1], args[2], args[3])
    ensures |args| != 1 && |args| != 4 ==> r == Err(InvalidNumberOfArguments(|args|))
  {
    if |args| == 1 then Deserialize(args[0])
    else if |args| == 4 then Build(args[0], args[1], args[2], args[3])
    else Err(InvalidNumberOfArguments(|args|))
  }

  /** What a body looks like after a serialize/deserialize round trip. */
  function Restored(body: Value): Value
  {
    if !Truthy(body) then Undefined
    else if body.Binary? || body.Str? || body.Num? || body.Bool? then body
    else Normalize(body)
  }

  /** A response that serialize then deserialize gives back unchanged. */
  predicate Stable(r: Response)
  {
    Serialize(r).Ok? && Deserialize(Serialize(r).value) == Ok(r)
  }

  /** A plain object that claims a numeric `byteLength` without being an ArrayBuffer. */
  predicate PosesAsBuffer(body: Value)
  {
    body.Obj? && Get(body, "byteLength").Num?
  }

  /**
   * A response built from its parts survives serialize then deserialize:
   * status, message, headers and body type unchanged, and the body restored
   * (a falsy body is lost, strings, numbers, booleans and ArrayBuffers come
   * back equal, other objects come back as their JSON data).
   */
  lemma SerializeRoundTrip(statusCode: Value, statusMessage: Value, body: Value, headers: Value)
    requires Build(statusCode, statusMessage, body, headers).Ok?
    requires WellKeyed(body) && !PosesAsBuffer(body)
    ensures var r := Build(statusCode, statusMessage, body, headers).value;
      Serialize(r).Ok? && Deserialize(Serialize(r).value)
        == Ok(Response(statusCode, statusMessage, Restored(body), r.bodyType, headers))
  {
    var r := Build(statusCode, statusMessage, body, headers).value;
    assert r == Response(statusCode, statusMessage, body, r.bodyType, headers);
    BodyRoundTrip(body, r.bodyType);
    SerializeThenDeserialize(r, Restored(body));
  }

  /** A serialized response reads back with every field but the body unchanged and the body restored by its type. */
  lemma SerializeThenDeserialize(r: Response, restored: Value)
    requires SerializeBody(r.body, r.bodyType).Ok?
    requires DeserializeBody(SerializeBody(r.body, r.bodyType).value, r.bodyType) == Ok(restored)
    ensures Serialize(r).Ok? && Deserialize(Serialize(r).value) == Ok(r.(body := restored))
  {
    var data := Serialize(r).value;
    SerializedFields(r, data);
  }

  /** The body alone: serializeResponseBody then deserializeResponseBody under the type the constructor chose. */
  lemma BodyRoundTrip(body: Value, bodyType: Value)
    requires Truthy(body) ==> GetResponseBodyType(body).Ok? && bodyType == Str(GetResponseBodyType(body).value)
    requires !Truthy(body) ==> bodyType == Null
    requires WellKeyed(body) && !PosesAsBuffer(body)
    ensures SerializeBody(body, bodyType).Ok?
    ensures DeserializeBody(SerializeBody(body, bodyType).value, bodyType) == Ok(Restored(body))
  {
    if Truthy(body) {
      if body.Binary? {
        ArrayBufferFns.RoundTrip(body.bytes);
      } else if body.Arr? || body.Obj? || body.RegExp? {
        JsonBodyRoundTrip(body);
      }
    }
  }

  lemma JsonBodyRoundTrip(body: Value)
    requires body.Arr? || body.Obj? || body.RegExp?
    requires WellKeyed(body) && !PosesAsBuffer(body)
    ensures GetResponseBodyType(body) == Ok("json")
    ensures SerializeBody(body, Str("json")) == Ok(Str(Stringify(body).value))
    ensures DeserializeBody(Str(Stringify(body).value), Str("json")) == Ok(Normalize(body))
  {
    JsonParse.RoundTrip(body);
  }

  /** Reading back the fields of a serialized response by name. */
  lemma SerializedFields(r: Response, data: Value)
    requires Serialize(r) == Ok(data)
    ensures Get(data, "statusCode") == r.statusCode
    ensures Get(data, "statusMessage") == r.statusMessage
    ensures Get(data, "body") == SerializeBody(r.body, r.bodyType).value
    ensures Get(data, "bodyType") == r.bodyType
    ensures Get(data, "headers") == r.headers
  {
    FiveFields(r.statusCode, r.statusMessage, SerializeBody(r.body, r.bodyType).value, r.bodyType, r.headers);
  }

  /** The object `serialize` builds, read back by name. */
  lemma FiveFields(statusCode: Value, statusMessage: Value, body: Value, bodyType: Value, headers: Value)
    ensures var data := Obj([Member("statusCode", statusCode), Member("statusMessage", statusMessage),
                             Member("body", body), Member("bodyType", bodyType), Member("headers", headers)]);
      Get(data, "statusCode") == statusCode && Get(data, "statusMessage") == statusMessage
      && Get(data, "body") == body && Get(data, "bodyType") == bodyType && Get(data, "headers") == headers
  {
    var ms := [Member("statusCode", statusCode), Member("statusMessage", statusMessage),
               Member("body", body), Member("bodyType", bodyType), Member("headers", headers)];
    assert ms[1..][1..][1..][1..] == [ms[4]];
    assert "statusCode" != "statusMessage" && "statusCode" != "body" && "statusCode" != "bodyType" && "statusCode" != "headers";
    assert "statusMessage" != "body" && "statusMessage" != "bodyType" && "statusMessage" != "headers";
    assert "body" != "bodyType" && "body" != "headers" && "bodyType" != "headers";
    assert Lookup(ms, "headers") == Lookup(ms[1..], "headers") == Lookup(ms[1..][1..], "headers")
      == Lookup(ms[1..][1..][1..], "headers") == Lookup(ms[1..][1..][1..][1..], "headers");
    assert Lookup(ms, "bodyType") == Lookup(ms[1..], "bodyType") == Lookup(ms[1..][1..], "bodyType")
      == Lookup(ms[1..][1..][1..], "bodyType");
    assert Lookup(ms, "body") == Lookup(ms[1..], "body") == Lookup(ms[1..][1..], "body");
    assert Lookup(ms, "statusMessage") == Lookup(ms[1..], "statusMessage");
  }

  /**
   * An object posing as a buffer, with no `length` of its own, is stored as an
   * empty base64 text and comes back as an empty ArrayBuffer.
   */
  lemma PosingObjectIsEmptied(statusCode: Value, statusMessage: Value, body: Value, headers: Value)
    requires PosesAsBuffer(body) && Get(body, "length").Undefined?
    ensures var r := Build(statusCode, statusMessage, body, headers);
      r.Ok? && r.value.bodyType == Str("ArrayBuffer")
      && Serialize(r.value).Ok? && Deserialize(Serialize(r.value).value).Ok?
      && Deserialize(Serialize(r.value).value).value.body == Binary([])
  {
    var r := Build(statusCode, statusMessage, body, headers).value;
    SerializedFields(r, Serialize(r).value);
    assert ArrayBufferFns.Encode([]) == "";
    ArrayBufferFns.RoundTrip([]);
  }

  /** Deserializing a stored response and serializing it again gives back the stored body, for a JSON body in canonical form. */
  lemma StoredJsonIsStable(data: Value, body: Value)
    requires !Nullish(data) && Get(data, "bodyType") == Str("json")
    requires IsJsonData(body) && Get(data, "body") == Str(Stringify(body).value)
    ensures Deserialize(data).Ok? && Deserialize(data).value.body == body
    ensures SerializeBody(Deserialize(data).value.body, Str("json")) == Ok(Get(data, "body"))
  {
    DataRoundTrip(body);
  }

  // ---------------------------------------------------------------------------
  // The examples of the source's own tests.

  /** The six bytes of "cheese". */
  const Cheese: seq<byte> := [99, 104, 101, 101, 115, 101]

  lemma CheeseEncodes()
    ensures ArrayBufferFns.Encode(Cheese) == "Y2hlZXNl"
  {
    ArrayBufferFns.QuadDigits(ArrayBufferFns.Pack(99, 104, 101), 24, 54, 33, 37);
    ArrayBufferFns.QuadDigits(ArrayBufferFns.Pack(101, 115, 101), 25, 23, 13, 37);
    ArrayBufferFns.EncodeStep(Cheese);
    ArrayBufferFns.EncodeStep(Cheese[3..]);
    assert Cheese[3..][3..] == [];
  }

  /** The JSON text of `{ foo: 'bar' }`. */
  lemma FooText()
    ensures Stringify(Obj([Member("foo", Str("bar"))])) == Some("{\"foo\":\"bar\"}")
  {
    assert "{\"" + "foo" + "\":" + "\"bar\"" + "}" == "{\"foo\":\"bar\"}";
    EscapePlain("foo");
    assert "\"" + "bar" + "\"" == "\"bar\"";
    EscapePlain("bar");
    assert Stringify(Str("bar")) == Some("\"bar\"");
    OneMemberObject("foo", Str("bar"), "\"bar\"");
  }

  /** A serialized response of the examples: status 200 `OK`, one header. */
  function StoredExample(body: Value, bodyType: Value): Value
  {
    Obj([Member("statusCode", Num(200)), Member("statusMessage", Str("OK")), Member("body", body),
         Member("bodyType", bodyType), Member("headers", MockHeaders)])
  }

  /** The header object of the examples. */
  const MockHeaders: Value := Obj([Member("mock-header", Str("yes"))])

  /** A built example response is serialized with its body in stored form. */
  lemma SerializeBuilt(body: Value, bodyType: string, stored: Value)
    requires Truthy(body) && GetResponseBodyType(body) == Ok(bodyType)
    requires SerializeBody(body, Str(bodyType)) == Ok(stored)
    ensures var r := Build(Num(200), Str("OK"), body, MockHeaders);
      r.Ok? && Serialize(r.value) == Ok(StoredExample(stored, Str(bodyType)))
  {
  }

  /** A JSON body is stored as its JSON text. */
  lemma SerializeJsonExample()
    ensures var r := Build(Num(200), Str("OK"), Obj([Member("foo", Str("bar"))]), MockHeaders);
      r.Ok? && Serialize(r.value) == Ok(StoredExample(Str("{\"foo\":\"bar\"}"), Str("json")))
  {
    FooText();
    SerializeBuilt(Obj([Member("foo", Str("bar"))]), "json", Str("{\"foo\":\"bar\"}"));
  }

  /** A string body is stored as it is. */
  lemma SerializeStringExample()
    ensures var r := Build(Num(200), Str("OK"), Str("body-string"), MockHeaders);
      r.Ok? && Serialize(r.value) == Ok(StoredExample(Str("body-string"), Str("string")))
  {
    SerializeBuilt(Str("body-string"), "string", Str("body-string"));
  }

  /** An ArrayBuffer body is stored as base64 text. */
  lemma SerializeBufferExample()
    ensures var r := Build(Num(200), Str("OK"), Binary(Cheese), MockHeaders);
      r.Ok? && Serialize(r.value) == Ok(StoredExample(Str("Y2hlZXNl"), Str("ArrayBuffer")))
  {
    CheeseEncodes();
    SerializeBuilt(Binary(Cheese), "ArrayBuffer", Str("Y2hlZXNl"));
  }

  /** A stored example response is read back with its body restored by type. */
  lemma DeserializeStored(stored: Value, bodyType: string, body: Value)
    requires DeserializeBody(stored, Str(bodyType)) == Ok(body)
    ensures Deserialize(StoredExample(stored, Str(bodyType)))
      == Ok(Response(Num(200), Str("OK"), body, Str(bodyType), MockHeaders))
  {
    FiveFields(Num(200), Str("OK"), stored, Str(bodyType), MockHeaders);
  }

  /** Deserializing a stored JSON body parses its text. */
  lemma DeserializeJsonExample()
    ensures Deserialize(StoredExample(Str("{\"foo\":\"bar\"}"), Str("json")))
      == Ok(Response(Num(200), Str("OK"), Obj([Member("foo", Str("bar"))]), Str("json"), MockHeaders))
  {
    FooText();
    DataRoundTrip(Obj([Member("foo", Str("bar"))]));
    DeserializeStored(Str("{\"foo\":\"bar\"}"), "json", Obj([Member("foo", Str("bar"))]));
  }

  /** Deserializing a stored string body returns it as it is. */
  lemma DeserializeStringExample()
    ensures Deserialize(StoredExample(Str("body-string"), Str("string")))
      == Ok(Response(Num(200), Str("OK"), Str("body-string"), Str("string"), MockHeaders))
  {
    DeserializeStored(Str("body-string"), "string", Str("body-string"));
  }

  /** Deserializing a stored ArrayBuffer body decodes its base64 text. */
  lemma DeserializeBufferExample()
    ensures Deserialize(StoredExample(Str("Y2hlZXNl"), Str("ArrayBuffer")))
      == Ok(Response(Num(200), Str("OK"), Binary(Cheese), Str("ArrayBuffer"), MockHeaders))
  {
    CheeseEncodes();
    ArrayBufferFns.RoundTrip(Cheese);
    DeserializeStored(Str("Y2hlZXNl"), "ArrayBuffer", Binary(Cheese));
  }

  /** The constructor refuses to be called without arguments. */
  lemma NoArgumentsExample()
    ensures NewResponse([]) == Err(InvalidNumberOfArguments(0))
  {
  }
}
