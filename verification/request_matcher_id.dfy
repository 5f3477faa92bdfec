/**
 * getRequestMatcherId (lib/commands/functions/getRequestMatcherId.js): the
 * id of a declared route, the md5 digest of `method::matcher::options`.
 */
module RequestMatcherId {
  import opened Wrappers
  import opened JsValues
  import opened Errors
  import opened Json
  import opened Env
  import opened MatcherString

  /**
   * The text that is hashed: the method, the matcher's text and the options'
   * JSON encoding, joined by `::` in that order. `JSON.stringify` returns
   * `undefined` for a function, which `join` writes as nothing.
   */
  function PreImage(httpMethod: Value, matcher: Value, options: Value): (r: Outcome<string>)
    ensures r.Err? <==> GetMatcherAsString(matcher).Err?
    ensures r.Err? ==> r.error == GetMatcherAsString(matcher).error
  {
    var matcherText :- GetMatcherAsString(matcher);
    var optionsText := match Stringify(options) case Some(t) => Str(t) case None => Undefined;
    Ok(Join(JoinTexts([httpMethod, Str(matcherText), optionsText]), "::"))
  }

  /** getRequestMatcherId */
  function GetRequestMatcherId(env: Env, httpMethod: Value, matcher: Value, options: Value): (r: Outcome<string>)
    ensures r.Err? <==> GetMatcherAsString(matcher).Err?
    ensures r.Ok? ==> r.value == env.md5(PreImage(httpMethod, matcher, options).value)
  {
    var text :- PreImage(httpMethod, matcher, options);
    Ok(env.md5(text))
  }

  /** The pre-image spelled out: three parts, two `::` separators, nothing else. */
  lemma PreImageParts(httpMethod: Value, matcher: Value, options: Value)
    requires GetMatcherAsString(matcher).Ok?
    ensures PreImage(httpMethod, matcher, options).value
      == JoinText(httpMethod) + "::" + GetMatcherAsString(matcher).value + "::" + Stringify(options).GetOr("")
  {
    var matcherText := GetMatcherAsString(matcher).value;
    var optionsText := match Stringify(options) case Some(t) => Str(t) case None => Undefined;
    JoinTextsThree(httpMethod, Str(matcherText), optionsText);
    JoinThree(JoinText(httpMethod), matcherText, Stringify(options).GetOr(""), "::");
  }

  /**
   * Two declarations with the same method, matcher text and options text get
   * the same id, however their matchers are written: this is what lets a map
   * revive a recorded matcher instead of adding a second one.
   */
  lemma SameDeclarationSameId(env: Env, httpMethod: Value, matcher1: Value, matcher2: Value, options1: Value, options2: Value)
    requires GetMatcherAsString(matcher1) == GetMatcherAsString(matcher2)
    requires Stringify(options1) == Stringify(options2)
    ensures GetRequestMatcherId(env, httpMethod, matcher1, options1) == GetRequestMatcherId(env, httpMethod, matcher2, options2)
  {
    if GetMatcherAsString(matcher1).Ok? {
      PreImageParts(httpMethod, matcher1, options1);
      PreImageParts(httpMethod, matcher2, options2);
    }
  }

  /** Declarations that differ only in their options' JSON text hash different texts. */
  lemma OptionsSeparate(httpMethod: Value, matcher: Value, options1: Value, options2: Value)
    requires GetMatcherAsString(matcher).Ok?
    requires Stringify(options1) != Stringify(options2)
    ensures PreImage(httpMethod, matcher, options1).value != PreImage(httpMethod, matcher, options2).value
  {
    PreImageParts(httpMethod, matcher, options1);
    PreImageParts(httpMethod, matcher, options2);
    StringifyNonEmpty(options1);
    StringifyNonEmpty(options2);
    var prefix := JoinText(httpMethod) + "::" + GetMatcherAsString(matcher).value + "::";
    AppendCancels(prefix, Stringify(options1).GetOr(""), Stringify(options2).GetOr(""));
  }

  lemma AppendCancels(prefix: string, a: string, b: string)
    requires a != b
    ensures prefix + a != prefix + b
  {
    assert a == (prefix + a)[|prefix|..];
    assert b == (prefix + b)[|prefix|..];
  }

  /** For a string method and a string matcher the pre-image is the three texts joined by `::`. */
  lemma PreImageOfTexts(httpMethod: string, matcher: string, options: Value, optionsText: string)
    requires Stringify(options) == Some(optionsText)
    ensures PreImage(Str(httpMethod), Str(matcher), options) == Ok(httpMethod + "::" + matcher + "::" + optionsText)
  {
    PreImageParts(Str(httpMethod), Str(matcher), options);
  }

  /** The source's own example: `GET`, a matcher named `matcher-as-string`, options `{ options: true }`. */
  lemma Example()
    ensures PreImage(Str("GET"), Str("matcher-as-string"), Obj([Member("options", Bool(true))]))
      == Ok("GET" + "::" + "matcher-as-string" + "::" + "{\"options\":true}")
  {
    TrueMemberObject("options", "{\"options\":true}");
    PreImageOfTexts("GET", "matcher-as-string", Obj([Member("options", Bool(true))]), "{\"options\":true}");
  }
}
