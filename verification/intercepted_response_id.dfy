/**
 * getInterceptedResponseId (lib/commands/functions/getInterceptedResponseId.js):
 * the fingerprint of one concrete request, the md5 digest of the `::`-join of
 * the request attributes that are not ignored, in a fixed order.
 */
module InterceptedResponseId {
  import opened Wrappers
  import opened JsValues
  import opened Errors
  import opened Json
  import opened Env

  /** The attributes a fingerprint can include. */
  datatype Attribute = Protocol | Hostname | Port | Pathname | Search | Method | Body

  function AttributeName(a: Attribute): string
  {
    match a
    case Protocol => "protocol"
    case Hostname => "hostname"
    case Port => "port"
    case Pathname => "pathname"
    case Search => "search"
    case Method => "method"
    case Body => "body"
  }

  /**
   * `defaultResponseAttributes`: the order in which attributes enter the
   * fingerprint. Reordering it would change every recorded id.
   */
  const DefaultAttributes: seq<Attribute> := [Protocol, Hostname, Port, Pathname, Search, Method, Body]

  /** `needle` occurs in `hay` starting at index `i`. */
  predicate OccursAt(hay: string, needle: string, i: int)
  {
    0 <= i <= |hay| - |needle| && hay[i..i + |needle|] == needle
  }

  /** `String.prototype.includes`: whether `needle` occurs in `hay`. */
  function Contains(hay: string, needle: string): (r: bool)
    ensures r <==> exists i :: OccursAt(hay, needle, i)
    decreases |hay|
  {
    if |needle| > |hay| then false
    else if hay[..|needle|] == needle then assert OccursAt(hay, needle, 0); true
    else
      var r := Contains(hay[1..], needle);
      assert r ==> exists i :: OccursAt(hay, needle, i) by {
        if r {
          var i :| OccursAt(hay[1..], needle, i);
          assert hay[i + 1..i + 1 + |needle|] == hay[1..][i..i + |needle|];
          assert OccursAt(hay, needle, i + 1);
        }
      }
      assert (exists i :: OccursAt(hay, needle, i)) ==> r by {
        if exists i :: OccursAt(hay, needle, i) {
          var i :| OccursAt(hay, needle, i);
          assert i != 0;
          assert hay[1..][i - 1..i - 1 + |needle|] == hay[i..i + |needle|];
          assert OccursAt(hay[1..], needle, i - 1);
        }
      }
      r
  }

  /**
   * `ignoredAttributes.includes(name)`: membership for an array, a substring
   * test for a string, a TypeError for anything without an `includes` method.
   */
  function Includes(ignores: Value, name: string): (r: Outcome<bool>)
    ensures ignores.Arr? ==> r == Ok(Str(name) in ignores.items)
    ensures ignores.Str? ==> r == Ok(Contains(ignores.s, name))
    ensures r.Err? <==> !ignores.Arr? && !ignores.Str?
  {
    match ignores
    case Arr(items) => Ok(Str(name) in items)
    case Str(s) => Ok(Contains(s, name))
    case _ => Err(TypeError("ignoredAttributes.includes is not a function"))
  }

  /** A URL part enters the fingerprint only when it is not empty. */
  function UrlPart(part: string): (r: seq<Value>)
    ensures r == [] <==> part == ""
    ensures r != [] ==> r == [Str(part)]
  {
    if part != "" then [Str(part)] else []
  }

  /**
   * The body's text: a string as it is, anything else JSON-encoded (a body
   * with no JSON form gives `undefined`, which the join writes as nothing).
   * A missing body is an error.
   */
  function BodyElement(body: Value): (r: Outcome<Value>)
    ensures r.Err? <==> Nullish(body)
    ensures r.Err? ==> r.error == RequestBodyRequired
    ensures body.Str? ==> r == Ok(body)
    ensures r.Ok? && !body.Str? ==> (r.value.Str? <==> Stringify(body).Some?)
    ensures r.Ok? && !body.Str? && r.value.Str? ==> Stringify(body) == Some(r.value.s)
  {
    if Nullish(body) then Err(RequestBodyRequired)
    else if body.Str? then Ok(body)
    else
      match Stringify(body)
      case Some(t) => Ok(Str(t))
      case None => Ok(Undefined)
  }

  /** What one attribute that is not ignored adds to the fingerprint. */
  function Element(a: Attribute, url: Url, request: Value): (r: Outcome<seq<Value>>)
    ensures r.Err? ==> a == Body && r.error == RequestBodyRequired
    ensures a == Method ==> r == Ok([Get(request, "method")])
    ensures a == Body ==> (r.Err? <==> Nullish(Get(request, "body")))
  {
    match a
    case Protocol => Ok(UrlPart(url.protocol))
    case Hostname => Ok(UrlPart(url.hostname))
    case Port => Ok(UrlPart(url.port))
    case Pathname => Ok(UrlPart(url.pathname))
    case Search => Ok(UrlPart(url.search))
    case Method => Ok([Get(request, "method")])
    case Body =>
      var body :- BodyElement(Get(request, "body"));
      Ok([body])
  }

  /** The `reduce` over the attributes, in order: skip the ignored ones, collect the others. */
  function Elements(attributes: seq<Attribute>, url: Url, request: Value, ignores: Value): (r: Outcome<seq<Value>>)
    ensures |attributes| > 0 && !ignores.Arr? && !ignores.Str? ==> r.Err? && r.error.TypeError?
  {
    if |attributes| == 0 then Ok([])
    else
      var ignored :- Includes(ignores, AttributeName(attributes[0]));
      var first :- if ignored then Ok([]) else Element(attributes[0], url, request);
      var others :- Elements(attributes[1..], url, request, ignores);
      Ok(first + others)
  }

  /** getInterceptedResponseId */
  function GetInterceptedResponseId(env: Env, request: Value, ignores: Value): (r: Outcome<string>)
    ensures Nullish(request) ==> r.Err? && r.error.TypeError?
    ensures !Nullish(request) && env.parseUrl(Get(request, "url")).None? ==> r == Err(InvalidUrl(Get(request, "url")))
    ensures !Nullish(request) && env.parseUrl(Get(request, "url")).Some? ==>
      var elements := Elements(DefaultAttributes, env.parseUrl(Get(request, "url")).value, request, ignores);
      (r.Err? <==> elements.Err?) && (r.Ok? ==> r.value == env.md5(Join(JoinTexts(elements.value), "::")))
  {
    if Nullish(request) then Err(TypeError("Cannot read properties of " + ToText(request) + " (reading 'url')"))
    else
      match env.parseUrl(Get(request, "url"))
      case None => Err(InvalidUrl(Get(request, "url")))
      case Some(url) =>
        var elements :- Elements(DefaultAttributes, url, request, ignores);
        Ok(env.md5(Join(JoinTexts(elements), "::")))
  }

  /**
   * What an attribute contributes when the ignores are the array `ignored`,
   * stated attribute by attribute: nothing when it is listed, a URL part
   * only when it is not empty, the method as it is, the body as text.
   */
  function Contribution(a: Attribute, url: Url, request: Value, ignored: seq<Value>): seq<Value>
  {
    if Str(AttributeName(a)) in ignored then []
    else
      match a
      case Protocol => if url.protocol == "" then [] else [Str(url.protocol)]
      case Hostname => if url.hostname == "" then [] else [Str(url.hostname)]
      case Port => if url.port == "" then [] else [Str(url.port)]
      case Pathname => if url.pathname == "" then [] else [Str(url.pathname)]
      case Search => if url.search == "" then [] else [Str(url.search)]
      case Method => [Get(request, "method")]
      case Body =>
        var body := Get(request, "body");
        if body.Str? then [body]
        else if Stringify(body).Some? then [Str(Stringify(body).value)]
        else [Undefined]
  }

  function Contributions(attributes: seq<Attribute>, url: Url, request: Value, ignored: seq<Value>): seq<Value>
  {
    if |attributes| == 0 then []
    else Contribution(attributes[0], url, request, ignored) + Contributions(attributes[1..], url, request, ignored)
  }

  /** The body is wanted and missing. */
  predicate MissingBody(request: Value, ignored: seq<Value>)
  {
    Str("body") !in ignored && Nullish(Get(request, "body"))
  }

  /** The fold collects exactly the contributions, in attribute order, unless a wanted body is missing. */
  lemma {:induction false} ElementsAreContributions(attributes: seq<Attribute>, url: Url, request: Value, ignored: seq<Value>)
    ensures Body in attributes && MissingBody(request, ignored) ==> Elements(attributes, url, request, Arr(ignored)) == Err(RequestBodyRequired)
    ensures !(Body in attributes && MissingBody(request, ignored)) ==>
      Elements(attributes, url, request, Arr(ignored)) == Ok(Contributions(attributes, url, request, ignored))
  {
    if |attributes| > 0 {
      ElementIsContribution(attributes[0], url, request, ignored);
      ElementsAreContributions(attributes[1..], url, request, ignored);
      assert Body in attributes <==> attributes[0] == Body || Body in attributes[1..] by {
        assert attributes == [attributes[0]] + attributes[1..];
      }
    }
  }

  /** One attribute: skipped when ignored, otherwise its element, which is its contribution unless it is a missing body. */
  lemma ElementIsContribution(a: Attribute, url: Url, request: Value, ignored: seq<Value>)
    ensures var first := if Str(AttributeName(a)) in ignored then Ok([]) else Element(a, url, request);
      (a == Body && MissingBody(request, ignored) ==> first == Err(RequestBodyRequired))
      && (!(a == Body && MissingBody(request, ignored)) ==> first == Ok(Contribution(a, url, request, ignored)))
  {
  }

  /** The seven contributions in the order of `defaultResponseAttributes`. */
  lemma DefaultContributions(url: Url, request: Value, ignored: seq<Value>)
    ensures Contributions(DefaultAttributes, url, request, ignored)
      == Contribution(Protocol, url, request, ignored) + (Contribution(Hostname, url, request, ignored)
       + (Contribution(Port, url, request, ignored) + (Contribution(Pathname, url, request, ignored)
       + (Contribution(Search, url, request, ignored) + (Contribution(Method, url, request, ignored)
       + Contribution(Body, url, request, ignored))))))
  {
    var r6 := [Body];
    var r5 := [Method] + r6;
    var r4 := [Search] + r5;
    var r3 := [Pathname] + r4;
    var r2 := [Port] + r3;
    var r1 := [Hostname] + r2;
    assert DefaultAttributes == [Protocol] + r1;
    var c6 := Contribution(Body, url, request, ignored);
    var c5 := Contribution(Method, url, request, ignored) + c6;
    var c4 := Contribution(Search, url, request, ignored) + c5;
    var c3 := Contribution(Pathname, url, request, ignored) + c4;
    var c2 := Contribution(Port, url, request, ignored) + c3;
    var c1 := Contribution(Hostname, url, request, ignored) + c2;
    assert Contributions(r6, url, request, ignored) == c6 by {
      assert r6 == [Body] + [];
      ContributionsCons(Body, [], url, request, ignored);
    }
    assert Contributions(r5, url, request, ignored) == c5 by { ContributionsCons(Method, r6, url, request, ignored); }
    assert Contributions(r4, url, request, ignored) == c4 by { ContributionsCons(Search, r5, url, request, ignored); }
    assert Contributions(r3, url, request, ignored) == c3 by { ContributionsCons(Pathname, r4, url, request, ignored); }
    assert Contributions(r2, url, request, ignored) == c2 by { ContributionsCons(Port, r3, url, request, ignored); }
    assert Contributions(r1, url, request, ignored) == c1 by { ContributionsCons(Hostname, r2, url, request, ignored); }
    ContributionsCons(Protocol, r1, url, request, ignored);
  }

  lemma ContributionsCons(a: Attribute, rest: seq<Attribute>, url: Url, request: Value, ignored: seq<Value>)
    ensures Contributions([a] + rest, url, request, ignored)
      == Contribution(a, url, request, ignored) + Contributions(rest, url, request, ignored)
  {
    assert ([a] + rest)[1..] == rest;
  }

  /**
   * With an array of ignores and a URL that parses, the id is the digest of
   * the seven contributions joined by `::`, or the missing-body error.
   */
  lemma FingerprintShape(env: Env, request: Value, ignored: seq<Value>)
    requires !Nullish(request) && env.parseUrl(Get(request, "url")).Some?
    ensures var url := env.parseUrl(Get(request, "url")).value;
      GetInterceptedResponseId(env, request, Arr(ignored))
        == if MissingBody(request, ignored) then Err(RequestBodyRequired)
           else Ok(env.md5(Join(JoinTexts(Contributions(DefaultAttributes, url, request, ignored)), "::")))
  {
    var url := env.parseUrl(Get(request, "url")).value;
    ElementsAreContributions(DefaultAttributes, url, request, ignored);
  }

  /** The request fails for want of a body exactly when the body is not ignored and is null or undefined. */
  lemma BodyRequiredExactly(env: Env, request: Value, ignored: seq<Value>)
    requires !Nullish(request) && env.parseUrl(Get(request, "url")).Some?
    ensures GetInterceptedResponseId(env, request, Arr(ignored)).Err? <==> MissingBody(request, ignored)
    ensures GetInterceptedResponseId(env, request, Arr(ignored)).Err? ==>
      GetInterceptedResponseId(env, request, Arr(ignored)).error == RequestBodyRequired
  {
    FingerprintShape(env, request, ignored);
  }

  /** Two requests that agree on every attribute that is not ignored. */
  predicate AgreeOnKept(url1: Url, request1: Value, url2: Url, request2: Value, ignored: seq<Value>)
  {
    forall a :: Contribution(a, url1, request1, ignored) == Contribution(a, url2, request2, ignored)
  }

  /**
   * Requests that differ only in ignored attributes (or in URL parts that are
   * ignored) get the same id; in particular a changed body is invisible when
   * `body` is ignored.
   */
  lemma IgnoredAttributesDoNotMatter(env: Env, request1: Value, request2: Value, ignored: seq<Value>)
    requires !Nullish(request1) && !Nullish(request2)
    requires env.parseUrl(Get(request1, "url")).Some? && env.parseUrl(Get(request2, "url")).Some?
    requires AgreeOnKept(env.parseUrl(Get(request1, "url")).value, request1, env.parseUrl(Get(request2, "url")).value, request2, ignored)
    requires MissingBody(request1, ignored) == MissingBody(request2, ignored)
    ensures GetInterceptedResponseId(env, request1, Arr(ignored)) == GetInterceptedResponseId(env, request2, Arr(ignored))
  {
    var url1 := env.parseUrl(Get(request1, "url")).value;
    var url2 := env.parseUrl(Get(request2, "url")).value;
    FingerprintShape(env, request1, ignored);
    FingerprintShape(env, request2, ignored);
    DefaultContributions(url1, request1, ignored);
    DefaultContributions(url2, request2, ignored);
    assert Contribution(Protocol, url1, request1, ignored) == Contribution(Protocol, url2, request2, ignored);
    assert Contribution(Hostname, url1, request1, ignored) == Contribution(Hostname, url2, request2, ignored);
    assert Contribution(Port, url1, request1, ignored) == Contribution(Port, url2, request2, ignored);
    assert Contribution(Pathname, url1, request1, ignored) == Contribution(Pathname, url2, request2, ignored);
    assert Contribution(Search, url1, request1, ignored) == Contribution(Search, url2, request2, ignored);
    assert Contribution(Method, url1, request1, ignored) == Contribution(Method, url2, request2, ignored);
    assert Contribution(Body, url1, request1, ignored) == Contribution(Body, url2, request2, ignored);
  }

  /** An ignored body may be missing, and may be anything: it never reaches the digest. */
  lemma IgnoredBodyMayBeMissing(env: Env, request: Value, other: Value, ignored: seq<Value>)
    requires Str("body") in ignored
    requires !Nullish(request) && env.parseUrl(Get(request, "url")).Some?
    requires request.Obj? && other == Obj(request.members + [Member("body", Undefined)])
    ensures GetInterceptedResponseId(env, other, Arr(ignored)).Ok?
  {
    assert Get(other, "url") == Get(request, "url") by {
      LookupAppend(request.members, "url", Member("body", Undefined));
    }
    FingerprintShape(env, other, ignored);
  }

  /** A property appended after the existing ones does not hide them. */
  lemma {:induction false} LookupAppend(members: seq<Member>, key: string, m: Member)
    requires Lookup(members, key) != Undefined || m.key != key
    ensures Lookup(members + [m], key) == if Lookup(members, key) != Undefined then Lookup(members, key) else Lookup([m], key)
  {
    if |members| > 0 {
      assert (members + [m])[1..] == members[1..] + [m];
      if members[0].key != key {
        LookupAppend(members[1..], key, m);
      }
    }
  }

  /** A request with the URL and method used by the source's own examples. */
  function ExampleRequest(body: Value): Value
  {
    Obj([Member("url", Str("https://example.com:4444?foo=bar")), Member("method", Str("GET")), Member("body", body)])
  }

  lemma ExampleFields(body: Value)
    ensures Get(ExampleRequest(body), "url") == Str("https://example.com:4444?foo=bar")
    ensures Get(ExampleRequest(body), "method") == Str("GET")
    ensures Get(ExampleRequest(body), "body") == body
  {
    var ms := ExampleRequest(body).members;
    assert ms[1..] == [Member("method", Str("GET")), Member("body", body)];
    assert ms[1..][1..] == [Member("body", body)];
    assert "url" != "method" && "url" != "body" && "method" != "body";
    assert Lookup(ms, "method") == Lookup(ms[1..], "method");
    assert Lookup(ms, "body") == Lookup(ms[1..], "body") == Lookup(ms[1..][1..], "body");
  }

  /** How `new URL` splits the example URL. */
  predicate ParsesExampleUrl(env: Env)
  {
    env.parseUrl(Str("https://example.com:4444?foo=bar")) == Some(Url("https:", "example.com", "4444", "/", "?foo=bar"))
  }

  lemma ExampleParts(env: Env, body: Value, ignored: seq<Value>)
    requires ParsesExampleUrl(env)
    requires !MissingBody(ExampleRequest(body), ignored)
    ensures GetInterceptedResponseId(env, ExampleRequest(body), Arr(ignored))
      == Ok(env.md5(Join(JoinTexts(Contributions(DefaultAttributes, Url("https:", "example.com", "4444", "/", "?foo=bar"), ExampleRequest(body), ignored)), "::")))
  {
    ExampleFields(body);
    FingerprintShape(env, ExampleRequest(body), ignored);
  }

  /** Each URL part and the method of the example request contribute one string; `search` none when ignored. */
  lemma ExampleUrlContributions(body: Value, ignored: seq<Value>)
    requires ignored == [] || ignored == [Str("search")]
    ensures var url := Url("https:", "example.com", "4444", "/", "?foo=bar");
      && Contribution(Method, url, ExampleRequest(body), ignored) == [Str("GET")]
      && Contribution(Protocol, url, ExampleRequest(body), ignored) == [Str("https:")]
      && Contribution(Hostname, url, ExampleRequest(body), ignored) == [Str("example.com")]
      && Contribution(Port, url, ExampleRequest(body), ignored) == [Str("4444")]
      && Contribution(Pathname, url, ExampleRequest(body), ignored) == [Str("/")]
      && Contribution(Search, url, ExampleRequest(body), ignored) == (if ignored == [] then [Str("?foo=bar")] else [])
  {
    ExampleFields(body);
  }

  /** The example's URL parts and method, as the fingerprint sees them with `search` ignored or not. */
  lemma ExampleTexts(body: Value, bodyText: string, ignored: seq<Value>)
    requires ignored == [] || ignored == [Str("search")]
    requires Contribution(Body, Url("https:", "example.com", "4444", "/", "?foo=bar"), ExampleRequest(body), ignored) == [Str(bodyText)]
    ensures JoinTexts(Contributions(DefaultAttributes, Url("https:", "example.com", "4444", "/", "?foo=bar"), ExampleRequest(body), ignored))
      == ["https:"] + (["example.com"] + (["4444"] + (["/"] + ((if ignored == [] then ["?foo=bar"] else []) + (["GET"] + [bodyText])))))
  {
    DefaultContributions(Url("https:", "example.com", "4444", "/", "?foo=bar"), ExampleRequest(body), ignored);
    ExampleUrlContributions(body, ignored);
    ExampleJoin(ignored == [], bodyText);
  }

  /** The texts of the example's contributions, one string each. */
  lemma ExampleJoin(withSearch: bool, bodyText: string)
    ensures JoinTexts([Str("https:")] + ([Str("example.com")] + ([Str("4444")] + ([Str("/")]
      + ((if withSearch then [Str("?foo=bar")] else []) + ([Str("GET")] + [Str(bodyText)]))))))
      == ["https:"] + (["example.com"] + (["4444"] + (["/"] + ((if withSearch then ["?foo=bar"] else []) + (["GET"] + [bodyText])))))
  {
    var search: seq<Value> := if withSearch then [Str("?foo=bar")] else [];
    var t6 := [Str("GET")] + [Str(bodyText)];
    JoinTextsOfStrings(bodyText, [], []);
    JoinTextsOfStrings("GET", [Str(bodyText)], [bodyText]);
    var t5 := search + t6;
    if withSearch {
      JoinTextsOfStrings("?foo=bar", t6, ["GET", bodyText]);
    }
    var texts5 := (if withSearch then ["?foo=bar"] else []) + (["GET"] + [bodyText]);
    assert JoinTexts(t5) == texts5;
    JoinTextsOfStrings("/", t5, texts5);
    JoinTextsOfStrings("4444", [Str("/")] + t5, ["/"] + texts5);
    JoinTextsOfStrings("example.com", [Str("4444")] + ([Str("/")] + t5), ["4444"] + (["/"] + texts5));
    JoinTextsOfStrings("https:", [Str("example.com")] + ([Str("4444")] + ([Str("/")] + t5)), ["example.com"] + (["4444"] + (["/"] + texts5)));
  }

  /** A string body enters as it is, after the URL parts and the method. */
  lemma StringBodyExample(env: Env)
    requires ParsesExampleUrl(env)
    ensures GetInterceptedResponseId(env, ExampleRequest(Str("body-string")), Arr([]))
      == Ok(env.md5(Join(["https:", "example.com", "4444", "/", "?foo=bar", "GET", "body-string"], "::")))
  {
    StringBodyContribution([]);
    ExampleParts(env, Str("body-string"), []);
    ExampleTexts(Str("body-string"), "body-string", []);
    SevenParts("https:", "example.com", "4444", "/", "?foo=bar", "GET", "body-string");
  }

  /** With `search` ignored, the query string is left out. */
  lemma IgnoredSearchExample(env: Env)
    requires ParsesExampleUrl(env)
    ensures GetInterceptedResponseId(env, ExampleRequest(Str("body-string")), Arr([Str("search")]))
      == Ok(env.md5(Join(["https:", "example.com", "4444", "/", "GET", "body-string"], "::")))
  {
    StringBodyContribution([Str("search")]);
    ExampleParts(env, Str("body-string"), [Str("search")]);
    ExampleTexts(Str("body-string"), "body-string", [Str("search")]);
    SixParts("https:", "example.com", "4444", "/", "GET", "body-string");
  }

  /** A body that is not a string enters as its JSON text. */
  lemma JsonBodyExample(env: Env)
    requires ParsesExampleUrl(env)
    ensures GetInterceptedResponseId(env, ExampleRequest(Obj([Member("body", Bool(true))])), Arr([]))
      == Ok(env.md5(Join(["https:", "example.com", "4444", "/", "?foo=bar", "GET", "{\"body\":true}"], "::")))
  {
    var body := Obj([Member("body", Bool(true))]);
    JsonBodyContribution();
    ExampleParts(env, body, []);
    ExampleTexts(body, "{\"body\":true}", []);
    SevenParts("https:", "example.com", "4444", "/", "?foo=bar", "GET", "{\"body\":true}");
  }

  lemma StringBodyContribution(ignored: seq<Value>)
    requires ignored == [] || ignored == [Str("search")]
    ensures !MissingBody(ExampleRequest(Str("body-string")), ignored)
    ensures Contribution(Body, Url("https:", "example.com", "4444", "/", "?foo=bar"), ExampleRequest(Str("body-string")), ignored)
      == [Str("body-string")]
  {
    ExampleFields(Str("body-string"));
    assert Str("body") !in ignored;
  }

  lemma JsonBodyContribution()
    ensures Contribution(Body, Url("https:", "example.com", "4444", "/", "?foo=bar"), ExampleRequest(Obj([Member("body", Bool(true))])), [])
      == [Str("{\"body\":true}")]
  {
    var body := Obj([Member("body", Bool(true))]);
    ExampleFields(body);
    TrueMemberObject("body", "{\"body\":true}");
    var b := Get(ExampleRequest(body), "body");
    assert !b.Str? && Stringify(b) == Some("{\"body\":true}");
  }

  lemma SevenParts(a: string, b: string, c: string, d: string, e: string, f: string, g: string)
    ensures [a] + ([b] + ([c] + ([d] + ([e] + ([f] + [g]))))) == [a, b, c, d, e, f, g]
  {
  }

  lemma SixParts(a: string, b: string, c: string, d: string, f: string, g: string)
    ensures [a] + ([b] + ([c] + ([d] + ([] + ([f] + [g]))))) == [a, b, c, d, f, g]
  {
  }

  /** A request without a body is refused. */
  lemma MissingBodyExample(env: Env)
    requires ParsesExampleUrl(env)
    ensures GetInterceptedResponseId(env, ExampleRequest(Undefined), Arr([])) == Err(RequestBodyRequired)
  {
    ExampleFields(Undefined);
    BodyRequiredExactly(env, ExampleRequest(Undefined), []);
  }

  /** `join` writes strings as they are. */
  lemma JoinTextsOfStrings(a: string, rest: seq<Value>, texts: seq<string>)
    requires JoinTexts(rest) == texts
    ensures JoinTexts([Str(a)] + rest) == [a] + texts
  {
    assert ([Str(a)] + rest)[1..] == rest;
    assert JoinText(Str(a)) == a;
  }
}
