/**
 * getMatcherAsString (lib/commands/functions/getMatcherAsString.js): the text
 * that names a route matcher in ids and messages.
 */
module MatcherString {
  import opened Wrappers
  import opened JsValues
  import opened Errors
  import opened Json

  /** `RegExp.prototype.toString`: `/source/flags`. */
  function RegExpText(source: string, flags: string): (r: string)
    ensures |r| >= 2 && r[0] == '/'
  {
    "/" + source + "/" + flags
  }

  /**
   * A string is its own text, a RegExp its `/source/flags` form, any other
   * object (null and arrays included) its JSON encoding; everything else is
   * rejected with its `typeof`.
   */
  function GetMatcherAsString(matcher: Value): (r: Outcome<string>)
    ensures matcher.Str? ==> r == Ok(matcher.s)
    ensures matcher.RegExp? ==> r == Ok(RegExpText(matcher.source, matcher.flags))
    ensures TypeOf(matcher) == "object" && !matcher.RegExp? ==> r.Ok? && Stringify(matcher) == Some(r.value)
    ensures r.Err? <==> TypeOf(matcher) != "string" && TypeOf(matcher) != "object"
    ensures r.Err? ==> r.error == UnsupportedMatcherType(TypeOf(matcher))
  {
    if TypeOf(matcher) == "string" then Ok(matcher.s)
    else if matcher.RegExp? then Ok(RegExpText(matcher.source, matcher.flags))
    else if TypeOf(matcher) == "object" then Ok(Stringify(matcher).value)
    else Err(UnsupportedMatcherType(TypeOf(matcher)))
  }

  /**
   * The RegExp case comes before the generic object case: a RegExp, which is
   * an object with no enumerable properties and would encode as `{}`, is
   * named by its pattern instead.
   */
  lemma RegExpBeforeObject(source: string, flags: string)
    ensures TypeOf(RegExp(source, flags)) == "object"
    ensures Stringify(RegExp(source, flags)) == Some("{}")
    ensures GetMatcherAsString(RegExp(source, flags)).Ok?
    ensures GetMatcherAsString(RegExp(source, flags)).value != Stringify(RegExp(source, flags)).value
  {
  }

  /** The cases of the source's own tests: a string, a RegExp, an object, a number. */
  lemma StringExample()
    ensures GetMatcherAsString(Str("/")) == Ok("/")
  {
  }

  lemma RegExpExample()
    ensures GetMatcherAsString(RegExp("\\/", "")) == Ok("/\\//")
  {
    assert RegExpText("\\/", "") == "/\\//";
  }

  lemma ObjectExample()
    ensures GetMatcherAsString(Obj([Member("stuff", Bool(true))])) == Ok("{\"stuff\":true}")
  {
    TrueMemberObject("stuff", "{\"stuff\":true}");
  }

  lemma NumberExample()
    ensures GetMatcherAsString(Num(3)) == Err(UnsupportedMatcherType("number"))
  {
  }
}
