/**
 * `JSON.stringify` without a replacer, over the values of `JsValues`: the
 * canonical text with no whitespace, members in enumeration order, array holes
 * for unrepresentable elements written as `null`.
 */
module Json {
  import opened Wrappers
  import opened JsValues

  /** `Array.prototype.join` over strings. */
  function Join(parts: seq<string>, sep: string): string
  {
    if |parts| == 0 then ""
    else if |parts| == 1 then parts[0]
    else parts[0] + sep + Join(parts[1..], sep)
  }

  function Digit(d: nat): char
    requires d < 10
  {
    "0123456789"[d]
  }

  /** Decimal text of a non-negative integer, without leading zeros. */
  function NatToString(n: nat): string
    decreases n
  {
    if n < 10 then [Digit(n)] else NatToString(n / 10) + [Digit(n % 10)]
  }

  /** `String(n)` for an integer. */
  function IntToString(n: int): string
  {
    if n < 0 then "-" + NatToString(-n) else NatToString(n)
  }

  function HexDigit(d: nat): char
    requires d < 16
  {
    "0123456789abcdef"[d]
  }

  /** How `JSON.stringify` writes one character inside a string literal. */
  function EscapeChar(c: char): string
  {
    if c == '"' then "\\\""
    else if c == '\\' then "\\\\"
    else if c == '\U{8}' then "\\b"
    else if c == '\t' then "\\t"
    else if c == '\n' then "\\n"
    else if c == '\U{C}' then "\\f"
    else if c == '\r' then "\\r"
    else if (c as int) < 0x20 then "\\u00" + [HexDigit(c as int / 16), HexDigit(c as int % 16)]
    else [c]
  }

  function EscapeString(s: string): string
  {
    if |s| == 0 then "" else EscapeChar(s[0]) + EscapeString(s[1..])
  }

  /** A character `JSON.stringify` writes as itself inside a string literal. */
  predicate PlainChar(c: char)
  {
    c != '"' && c != '\\' && (c as int) >= 0x20
  }

  /** A string without quotes, backslashes or control characters needs no escaping. */
  lemma {:induction false} EscapePlain(s: string)
    requires forall i :: 0 <= i < |s| ==> PlainChar(s[i])
    ensures EscapeString(s) == s
  {
    if |s| > 0 {
      EscapePlain(s[1..]);
      assert s == [s[0]] + s[1..];
    }
  }

  /** A JSON string literal for `s`. */
  function Quote(s: string): string
  {
    "\"" + EscapeString(s) + "\""
  }

  /**
   * `JSON.stringify(v)`. `None` is the `undefined` it returns for values with
   * no JSON form. A RegExp and an ArrayBuffer have no own enumerable
   * properties, so both are written as an empty object.
   */
  function Stringify(v: Value): (r: Option<string>)
    ensures r.None? <==> (v.Undefined? || v.Func?)
    decreases v
  {
    match v
    case Undefined => None
    case Func(_) => None
    case Null => Some("null")
    case Bool(b) => Some(if b then "true" else "false")
    case Num(n) => Some(IntToString(n))
    case Str(s) => Some(Quote(s))
    case Arr(items) => Some("[" + Join(ElementTexts(items), ",") + "]")
    case Obj(members) => Some("{" + Join(MemberTexts(members), ",") + "}")
    case RegExp(_, _) => Some("{}")
    case Binary(_) => Some("{}")
  }

  /** The text of each array element; an element with no JSON form becomes `null`. */
  function ElementTexts(items: seq<Value>): (r: seq<string>)
    ensures |r| == |items|
    decreases items
  {
    if |items| == 0 then []
    else [Stringify(items[0]).GetOr("null")] + ElementTexts(items[1..])
  }

  /** The `"key":value` text of each member that has a JSON form; the others are skipped. */
  function MemberTexts(members: seq<Member>): (r: seq<string>)
    ensures |r| <= |members|
    decreases members
  {
    if |members| == 0 then []
    else
      match Stringify(members[0].value)
      case None => MemberTexts(members[1..])
      case Some(t) => [Quote(members[0].key) + ":" + t] + MemberTexts(members[1..])
  }

  /** `String(v)`, the text a template literal or `Array.prototype.join` gives a value. */
  function ToText(v: Value): string
    decreases v, 0
  {
    match v
    case Undefined => "undefined"
    case Null => "null"
    case Bool(b) => if b then "true" else "false"
    case Num(n) => IntToString(n)
    case Str(s) => s
    case Arr(items) => Join(JoinTexts(items), ",")
    case Obj(_) => "[object Object]"
    case RegExp(source, flags) => "/" + source + "/" + flags
    case Binary(_) => "[object ArrayBuffer]"
    case Func(source) => source
  }

  /** The texts `Array.prototype.join` puts between its separators. */
  function JoinTexts(items: seq<Value>): (r: seq<string>)
    ensures |r| == |items|
    decreases items, 2
  {
    if |items| == 0 then [] else [JoinText(items[0])] + JoinTexts(items[1..])
  }

  /** The text `Array.prototype.join` gives one element: `null` and `undefined` become empty. */
  function JoinText(v: Value): string
    decreases v, 1
  {
    if Nullish(v) then "" else ToText(v)
  }

  /** `JSON.stringify` never produces the empty text. */
  lemma StringifyNonEmpty(v: Value)
    ensures Stringify(v).Some? ==> |Stringify(v).value| > 0
  {
    if v.Num? {
      NatToStringNonEmpty(if v.n < 0 then -v.n else v.n);
    }
  }

  lemma NatToStringNonEmpty(n: nat)
    ensures |NatToString(n)| > 0
  {
  }

  lemma JoinThree(a: string, b: string, c: string, sep: string)
    ensures Join([a, b, c], sep) == a + sep + b + sep + c
  {
    assert [a, b, c][1..] == [b, c];
    assert [b, c][1..] == [c];
    assert Join([b, c], sep) == b + sep + c;
    assert Join([a, b, c], sep) == a + sep + (b + sep + c);
  }

  lemma JoinTextsThree(a: Value, b: Value, c: Value)
    ensures JoinTexts([a, b, c]) == [JoinText(a), JoinText(b), JoinText(c)]
  {
    assert [a, b, c][1..] == [b, c];
    assert [b, c][1..] == [c];
    assert [c][1..] == [];
    assert JoinTexts([c]) == [JoinText(c)];
    assert JoinTexts([b, c]) == [JoinText(b)] + JoinTexts([c]);
    assert JoinTexts([a, b, c]) == [JoinText(a)] + JoinTexts([b, c]);
    assert [JoinText(a)] + ([JoinText(b)] + [JoinText(c)]) == [JoinText(a), JoinText(b), JoinText(c)];
  }

  /**
   * The JSON text of `{ key: true }` for a key that needs no escaping: the
   * key in quotes, a colon and `true`, in braces. The expected `text` is a
   * parameter so that a caller with a literal key compares literals only once.
   */
  lemma TrueMemberObject(key: string, text: string)
    requires forall i :: 0 <= i < |key| ==> PlainChar(key[i])
    requires text == "{\"" + key + "\":true}"
    ensures Stringify(Obj([Member(key, Bool(true))])) == Some(text)
  {
    EscapePlain(key);
    assert Stringify(Bool(true)) == Some("true");
    OneMemberObject(key, Bool(true), "true");
    assert "{\"" + key + "\":" + "true" + "}" == text;
  }

  /** The JSON text of a one-member object with a plain key. */
  lemma OneMemberObject(key: string, value: Value, text: string)
    requires EscapeString(key) == key && Stringify(value) == Some(text)
    ensures Stringify(Obj([Member(key, value)])) == Some("{\"" + key + "\":" + text + "}")
  {
    var members := [Member(key, value)];
    assert members[1..] == [];
    assert MemberTexts(members) == [Quote(key) + ":" + text];
    assert Join(MemberTexts(members), ",") == Quote(key) + ":" + text;
    assert Quote(key) == "\"" + key + "\"";
    assert Stringify(Obj(members)) == Some("{" + Join(MemberTexts(members), ",") + "}");
    assert "{" + (("\"" + key + "\"") + ":" + text) + "}" == "{\"" + key + "\":" + text + "}";
  }
}
