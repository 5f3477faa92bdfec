/**
 * `JSON.parse`, restricted to the integer numbers of `JsValues`, and the
 * round trip it completes with `Json.Stringify`.
 *
 * The parser follows the JSON grammar (RFC 8259): whitespace is space, tab,
 * line feed and carriage return; numbers are `-?(0|[1-9][0-9]*)`; strings
 * take the escapes `\" \\ \/ \b \f \n \r \t \uXXXX`; a repeated object key
 * keeps the position of its first occurrence and the value of its last, as
 * `CreateDataProperty` does.
 */
module JsonParse {
  import opened Wrappers
  import opened JsValues
  import opened Errors
  import opened Json

  /** The four characters JSON treats as insignificant whitespace. */
  predicate IsWs(c: char)
  {
    c == ' ' || c == '\t' || c == '\n' || c == '\r'
  }

  function SkipWs(s: string): (r: string)
    ensures |r| <= |s|
    ensures |r| > 0 ==> !IsWs(r[0])
  {
    if |s| > 0 && IsWs(s[0]) then SkipWs(s[1..]) else s
  }

  predicate IsDigit(c: char)
  {
    '0' <= c <= '9'
  }

  function DecimalDigit(c: char): nat
    requires IsDigit(c)
  {
    c as int - '0' as int
  }

  /** The length of the run of decimal digits `s` starts with. */
  function LeadingDigits(s: string): (k: nat)
    ensures k <= |s|
    ensures forall i :: 0 <= i < k ==> IsDigit(s[i])
    ensures k < |s| ==> !IsDigit(s[k])
  {
    if |s| > 0 && IsDigit(s[0]) then 1 + LeadingDigits(s[1..]) else 0
  }

  /** The number a run of decimal digits denotes, most significant first. */
  function DigitsValue(ds: string): nat
    requires forall i :: 0 <= i < |ds| ==> IsDigit(ds[i])
  {
    if |ds| == 0 then 0 else DigitsValue(ds[..|ds| - 1]) * 10 + DecimalDigit(ds[|ds| - 1])
  }

  /**
   * A number with no sign at the head of `u`: `0` or a digit run that does
   * not start with `0`. A fraction or an exponent denotes a non-integer
   * number, which `JsValues` has no value for: it is rejected.
   */
  function ParseUnsigned(u: string): (r: Option<(nat, string)>)
    ensures r.Some? ==> |r.value.1| < |u|
  {
    var k := LeadingDigits(u);
    if k == 0 then None
    else
      var len := if u[0] == '0' then 1 else k;
      var rest := u[len..];
      if |rest| > 0 && (rest[0] == '.' || rest[0] == 'e' || rest[0] == 'E') then None
      else Some((DigitsValue(u[..len]), rest))
  }

  /** A number at the head of `t`: an optional minus, then the unsigned part. */
  function ParseNumber(t: string): (r: Option<(Value, string)>)
    ensures r.Some? ==> r.value.0.Num? && |r.value.1| < |t|
  {
    if |t| > 0 && t[0] == '-' then
      match ParseUnsigned(t[1..])
      case None => None
      case Some((n, rest)) => Some((Num(-(n as int)), rest))
    else
      match ParseUnsigned(t)
      case None => None
      case Some((n, rest)) => Some((Num(n), rest))
  }

  /** The value of one hexadecimal digit, in either case. */
  function HexValue(c: char): (r: Option<nat>)
    ensures r.Some? ==> r.value < 16
  {
    if '0' <= c <= '9' then Some(c as int - '0' as int)
    else if 'a' <= c <= 'f' then Some(c as int - 'a' as int + 10)
    else if 'A' <= c <= 'F' then Some(c as int - 'A' as int + 10)
    else None
  }

  /** The code unit four hexadecimal digits denote. */
  function ParseHex4(h: string): (r: Option<nat>)
    requires |h| == 4
    ensures r.Some? ==> r.value < 0x1_0000
  {
    match (HexValue(h[0]), HexValue(h[1]), HexValue(h[2]), HexValue(h[3]))
    case (Some(a), Some(b), Some(c), Some(d)) => Some(((a * 16 + b) * 16 + c) * 16 + d)
    case _ => None
  }

  /**
   * One character of a string literal and what follows it: a plain character
   * stands for itself, a backslash starts an escape. The closing quote and raw
   * control characters are not string characters. A `\u` escape of a lone
   * surrogate half names no character of a `string` here and is rejected.
   */
  function ParseChar(s: string): (r: Option<(char, string)>)
    ensures r.Some? ==> |r.value.1| < |s|
  {
    if |s| == 0 || s[0] == '"' || (s[0] as int) < 0x20 then None
    else if s[0] != '\\' then Some((s[0], s[1..]))
    else if |s| < 2 then None
    else
      var e := s[1];
      if e == '"' then Some(('"', s[2..]))
      else if e == '\\' then Some(('\\', s[2..]))
      else if e == '/' then Some(('/', s[2..]))
      else if e == 'b' then Some(('\U{8}', s[2..]))
      else if e == 'f' then Some(('\U{C}', s[2..]))
      else if e == 'n' then Some(('\n', s[2..]))
      else if e == 'r' then Some(('\r', s[2..]))
      else if e == 't' then Some(('\t', s[2..]))
      else if e == 'u' && |s| >= 6 then
        match ParseHex4(s[2..6])
        case None => None
        case Some(code) => if 0xD800 <= code < 0xE000 then None else Some((code as char, s[6..]))
      else None
  }

  /** The body of a string literal, after its opening quote, up to and including the closing quote. */
  function ParseString(s: string): (r: Option<(string, string)>)
    ensures r.Some? ==> |r.value.1| < |s|
    decreases |s|
  {
    if |s| > 0 && s[0] == '"' then Some(("", s[1..]))
    else
      match ParseChar(s)
      case None => None
      case Some(p) =>
        match ParseString(p.1)
        case None => None
        case Some(q) => Some(([p.0] + q.0, q.1))
  }

  /** No two members share a key. */
  predicate DistinctKeys(members: seq<Member>)
  {
    forall i, j :: 0 <= i < j < |members| ==> members[i].key != members[j].key
  }

  predicate HasKey(members: seq<Member>, key: string)
  {
    exists i :: 0 <= i < |members| && members[i].key == key
  }

  /**
   * `CreateDataProperty(object, m.key, m.value)`: an existing property gets
   * the new value in place, a new one goes last.
   */
  function Put(members: seq<Member>, m: Member): (r: seq<Member>)
    ensures Lookup(r, m.key) == m.value
    ensures forall k :: k != m.key ==> Lookup(r, k) == Lookup(members, k)
    ensures !HasKey(members, m.key) ==> r == members + [m]
    ensures HasKey(members, m.key) ==> |r| == |members|
  {
    if |members| == 0 then [m]
    else if members[0].key == m.key then [m] + members[1..]
    else
      assert HasKey(members, m.key) ==> HasKey(members[1..], m.key) by {
        if HasKey(members, m.key) {
          var i :| 0 <= i < |members| && members[i].key == m.key;
          assert members[1..][i - 1].key == m.key;
        }
      }
      assert !HasKey(members, m.key) ==> !HasKey(members[1..], m.key) by {
        if HasKey(members[1..], m.key) {
          var i :| 0 <= i < |members[1..]| && members[1..][i].key == m.key;
          assert members[i + 1].key == m.key;
        }
      }
      [members[0]] + Put(members[1..], m)
  }

  /** Each member of `Put(members, m)` is `m` or one of `members`, and keys stay unique. */
  lemma {:induction false} PutKeeps(members: seq<Member>, m: Member)
    ensures forall i :: 0 <= i < |Put(members, m)| ==> Put(members, m)[i] == m || Put(members, m)[i] in members
    ensures DistinctKeys(members) ==> DistinctKeys(Put(members, m))
    decreases |members|
  {
    if |members| > 0 && members[0].key != m.key {
      var rest := Put(members[1..], m);
      PutKeeps(members[1..], m);
      assert Put(members, m) == [members[0]] + rest;
      assert forall x :: x in members[1..] ==> x in members;
      if DistinctKeys(members) {
        assert DistinctKeys(members[1..]) by {
          forall i, j | 0 <= i < j < |members[1..]| ensures members[1..][i].key != members[1..][j].key {
            assert members[1..][i] == members[i + 1] && members[1..][j] == members[j + 1];
          }
        }
        PutHeadDistinct(members[0], rest, members[1..], m);
      }
    } else if |members| > 0 {
      assert forall x :: x in members[1..] ==> x in members;
      if DistinctKeys(members) {
        var r := [m] + members[1..];
        forall i, j | 0 <= i < j < |r| ensures r[i].key != r[j].key {
          assert r[j] == members[j];
          if i > 0 {
            assert r[i] == members[i];
          }
        }
      }
    }
  }

  /** A member in front of distinct members whose keys are all different from its own. */
  lemma PutHeadDistinct(head: Member, rest: seq<Member>, tail: seq<Member>, m: Member)
    requires DistinctKeys(rest) && head.key != m.key
    requires forall i :: 0 <= i < |rest| ==> rest[i] == m || rest[i] in tail
    requires forall i :: 0 <= i < |tail| ==> tail[i].key != head.key
    ensures DistinctKeys([head] + rest)
  {
    var r := [head] + rest;
    forall i, j | 0 <= i < j < |r| ensures r[i].key != r[j].key {
      assert r[j] == rest[j - 1];
      if i > 0 {
        assert r[i] == rest[i - 1];
      } else if rest[j - 1] != m {
        var k :| 0 <= k < |tail| && tail[k] == rest[j - 1];
      }
    }
  }

  /** The object `JSON.parse` builds from its members in text order. */
  function BuildObject(acc: seq<Member>, members: seq<Member>): (r: seq<Member>)
    decreases |members|
  {
    if |members| == 0 then acc else BuildObject(Put(acc, members[0]), members[1..])
  }

  /** The object whose members are read in this order. */
  function ObjectOf(members: seq<Member>): Value
  {
    Obj(BuildObject([], members))
  }

  /** Building an object keeps keys unique and takes each member from the start or the text. */
  lemma {:induction false} BuildObjectKeeps(acc: seq<Member>, members: seq<Member>)
    ensures forall x :: x in BuildObject(acc, members) ==> x in acc || x in members
    ensures DistinctKeys(acc) ==> DistinctKeys(BuildObject(acc, members))
    decreases |members|
  {
    if |members| > 0 {
      var next := Put(acc, members[0]);
      PutKeeps(acc, members[0]);
      BuildObjectKeeps(next, members[1..]);
      assert forall x :: x in next ==> x in acc || x in members by {
        forall x | x in next ensures x in acc || x in members {
          var i :| 0 <= i < |next| && next[i] == x;
        }
      }
      assert forall x :: x in members[1..] ==> x in members;
    }
  }

  /** An object built from members whose values are JSON data is JSON data. */
  lemma ObjectOfIsData(members: seq<Member>)
    requires forall i :: 0 <= i < |members| ==> IsJsonData(members[i].value)
    ensures IsJsonData(ObjectOf(members))
  {
    var built := BuildObject([], members);
    BuildObjectKeeps([], members);
    forall i | 0 <= i < |built| ensures IsJsonData(built[i].value) {
      assert built[i] in members;
    }
  }

  /** A JSON value followed by whatever comes after it; leading whitespace is skipped. */
  function ParseValue(s: string): (r: Option<(Value, string)>)
    ensures r.Some? ==> |r.value.1| < |s|
    ensures r.Some? ==> IsJsonData(r.value.0)
    decreases |s|, 0
  {
    var t := SkipWs(s);
    if |t| == 0 then None
    else if t[0] == 'n' then Literal(t, "null", Null)
    else if t[0] == 't' then Literal(t, "true", Bool(true))
    else if t[0] == 'f' then Literal(t, "false", Bool(false))
    else if t[0] == '"' then
      match ParseString(t[1..])
      case None => None
      case Some(p) => Some((Str(p.0), p.1))
    else if t[0] == '[' then ParseArray(t[1..])
    else if t[0] == '{' then ParseObject(t[1..])
    else if t[0] == '-' || IsDigit(t[0]) then ParseNumber(t)
    else None
  }

  /** An array after its opening bracket: empty, or elements up to the closing bracket. */
  function ParseArray(s: string): (r: Option<(Value, string)>)
    ensures r.Some? ==> |r.value.1| < |s|
    ensures r.Some? ==> IsJsonData(r.value.0)
    decreases |s|, 2
  {
    var u := SkipWs(s);
    if |u| > 0 && u[0] == ']' then Some((Arr([]), u[1..]))
    else
      match ParseElements(s)
      case None => None
      case Some(p) => Some((Arr(p.0), p.1))
  }

  /** An object after its opening brace: empty, or members up to the closing brace. */
  function ParseObject(s: string): (r: Option<(Value, string)>)
    ensures r.Some? ==> |r.value.1| < |s|
    ensures r.Some? ==> IsJsonData(r.value.0)
    decreases |s|, 2
  {
    var u := SkipWs(s);
    if |u| > 0 && u[0] == '}' then Some((Obj([]), u[1..]))
    else
      match ParseMembers(s)
      case None => None
      case Some(p) =>
        ObjectOfIsData(p.0);
        Some((ObjectOf(p.0), p.1))
  }

  /** A keyword literal at the head of `t`. */
  function Literal(t: string, word: string, v: Value): (r: Option<(Value, string)>)
    requires |word| > 0
    ensures r.Some? ==> r.value.0 == v && |r.value.1| < |t|
  {
    if |t| >= |word| && t[..|word|] == word then Some((v, t[|word|..])) else None
  }

  /** One or more array elements separated by commas, then the closing bracket. */
  function ParseElements(s: string): (r: Option<(seq<Value>, string)>)
    ensures r.Some? ==> |r.value.1| < |s|
    ensures r.Some? ==> forall i :: 0 <= i < |r.value.0| ==> IsJsonData(r.value.0[i])
    decreases |s|, 1
  {
    match ParseValue(s)
    case None => None
    case Some(p) => MoreElements(p.0, SkipWs(p.1))
  }

  /** After element `v`: the closing bracket, or a comma and further elements. */
  function MoreElements(v: Value, w: string): (r: Option<(seq<Value>, string)>)
    ensures r.Some? ==> |r.value.1| < |w|
    ensures r.Some? ==> |r.value.0| > 0 && r.value.0[0] == v && forall i :: 1 <= i < |r.value.0| ==> IsJsonData(r.value.0[i])
    decreases |w|, 2
  {
    if |w| == 0 then None
    else if w[0] == ']' then Some(([v], w[1..]))
    else if w[0] == ',' then
      match ParseElements(w[1..])
      case None => None
      case Some(q) => Some(([v] + q.0, q.1))
    else None
  }

  /** One or more `"key": value` members separated by commas, then the closing brace. */
  function ParseMembers(s: string): (r: Option<(seq<Member>, string)>)
    ensures r.Some? ==> |r.value.1| < |s|
    ensures r.Some? ==> forall i :: 0 <= i < |r.value.0| ==> IsJsonData(r.value.0[i].value)
    decreases |s|, 1
  {
    var t := SkipWs(s);
    if |t| == 0 || t[0] != '"' then None
    else
      match ParseString(t[1..])
      case None => None
      case Some(k) => MemberValue(k.0, SkipWs(k.1))
  }

  /** After a member's key: the colon, the value, then what follows the member. */
  function MemberValue(key: string, u: string): (r: Option<(seq<Member>, string)>)
    ensures r.Some? ==> |r.value.1| < |u|
    ensures r.Some? ==> forall i :: 0 <= i < |r.value.0| ==> IsJsonData(r.value.0[i].value)
    decreases |u|, 3
  {
    if |u| == 0 || u[0] != ':' then None
    else
      match ParseValue(u[1..])
      case None => None
      case Some(p) => MoreMembers(Member(key, p.0), SkipWs(p.1))
  }

  /** After member `m`: the closing brace, or a comma and further members. */
  function MoreMembers(m: Member, w: string): (r: Option<(seq<Member>, string)>)
    ensures r.Some? ==> |r.value.1| < |w|
    ensures r.Some? ==> |r.value.0| > 0 && r.value.0[0] == m && forall i :: 1 <= i < |r.value.0| ==> IsJsonData(r.value.0[i].value)
    decreases |w|, 2
  {
    if |w| == 0 then None
    else if w[0] == '}' then Some(([m], w[1..]))
    else if w[0] == ',' then
      match ParseMembers(w[1..])
      case None => None
      case Some(q) => Some(([m] + q.0, q.1))
    else None
  }

  /** `JSON.parse(text)`: one value, surrounded by nothing but whitespace. */
  function Parse(text: string): (r: Outcome<Value>)
    ensures r.Err? ==> r.error == JsonSyntax
    ensures r.Ok? <==> ParseValue(text).Some? && SkipWs(ParseValue(text).value.1) == ""
    ensures r.Ok? ==> IsJsonData(r.value)
  {
    match ParseValue(text)
    case None => Err(JsonSyntax)
    case Some(p) => if SkipWs(p.1) == "" then Ok(p.0) else Err(JsonSyntax)
  }

  /**
   * The values `JSON.parse` can return: null, booleans, numbers, strings, and
   * arrays and objects of them, objects without repeated keys.
   */
  predicate IsJsonData(v: Value)
    decreases v
  {
    match v
    case Null => true
    case Bool(_) => true
    case Num(_) => true
    case Str(_) => true
    case Arr(items) => forall i :: 0 <= i < |items| ==> IsJsonData(items[i])
    case Obj(members) =>
      DistinctKeys(members) && forall i :: 0 <= i < |members| ==> IsJsonData(members[i].value)
    case _ => false
  }

  /** No object anywhere inside `v` repeats a key: the shape every JavaScript object has. */
  predicate WellKeyed(v: Value)
    decreases v
  {
    match v
    case Arr(items) => forall i :: 0 <= i < |items| ==> WellKeyed(items[i])
    case Obj(members) =>
      DistinctKeys(members) && forall i :: 0 <= i < |members| ==> WellKeyed(members[i].value)
    case _ => true
  }

  /**
   * What `JSON.parse(JSON.stringify(v))` gives back: members without a JSON
   * form dropped, array elements without one turned into null, a RegExp or an
   * ArrayBuffer turned into an empty object.
   */
  function Normalize(v: Value): (r: Value)
    decreases v
  {
    match v
    case Arr(items) => Arr(NormalizeItems(items))
    case Obj(members) => Obj(NormalizeMembers(members))
    case RegExp(_, _) => Obj([])
    case Binary(_) => Obj([])
    case Func(_) => Undefined
    case _ => v
  }

  function NormalizeItems(items: seq<Value>): (r: seq<Value>)
    ensures |r| == |items|
    decreases items
  {
    if |items| == 0 then []
    else [if Stringify(items[0]).None? then Null else Normalize(items[0])] + NormalizeItems(items[1..])
  }

  function NormalizeMembers(members: seq<Member>): (r: seq<Member>)
    ensures |r| <= |members|
    decreases members
  {
    if |members| == 0 then []
    else if Stringify(members[0].value).None? then NormalizeMembers(members[1..])
    else [Member(members[0].key, Normalize(members[0].value))] + NormalizeMembers(members[1..])
  }

  // ---------------------------------------------------------------------------
  // Characters and strings

  lemma HexDigitParses(d: nat)
    requires d < 16
    ensures HexValue(HexDigit(d)) == Some(d)
  {
  }

  /** The first character of an escape is never the closing quote. */
  lemma EscapeCharShape(c: char)
    ensures |EscapeChar(c)| > 0 && EscapeChar(c)[0] != '"'
  {
  }

  /** A control character written as `\u00XX` reads back as itself. */
  lemma UnicodeEscapeParses(c: char, tail: string)
    requires (c as int) < 0x20
    ensures ParseChar("\\u00" + [HexDigit(c as int / 16), HexDigit(c as int % 16)] + tail) == Some((c, tail))
  {
    var hi, lo := c as int / 16, c as int % 16;
    var s := "\\u00" + [HexDigit(hi), HexDigit(lo)] + tail;
    assert s[0] == '\\' && s[1] == 'u';
    assert s[2..6] == ['0', '0', HexDigit(hi), HexDigit(lo)];
    HexDigitParses(hi);
    HexDigitParses(lo);
    assert HexValue('0') == Some(0);
    assert ParseHex4(s[2..6]) == Some(c as int);
    assert s[6..] == tail;
  }

  /** Every character `JSON.stringify` writes reads back as itself. */
  lemma EscapeCharParses(c: char, tail: string)
    ensures ParseChar(EscapeChar(c) + tail) == Some((c, tail))
  {
    var s := EscapeChar(c) + tail;
    if c == '"' || c == '\\' || c == '\U{8}' || c == '\t' || c == '\n' || c == '\U{C}' || c == '\r' {
      assert s[0] == '\\' && s[2..] == tail;
    } else if (c as int) < 0x20 {
      UnicodeEscapeParses(c, tail);
    } else {
      assert s[0] == c && s[1..] == tail;
    }
  }

  /** A string literal `JSON.stringify` wrote, without its opening quote, reads back as the string. */
  lemma {:induction false} EscapedStringParses(str: string, rest: string)
    ensures ParseString(EscapeString(str) + "\"" + rest) == Some((str, rest))
  {
    if |str| == 0 {
      assert EscapeString(str) + "\"" + rest == "\"" + rest;
    } else {
      var tail := EscapeString(str[1..]) + "\"" + rest;
      assert EscapeString(str) + "\"" + rest == EscapeChar(str[0]) + tail;
      EscapeCharShape(str[0]);
      EscapeCharParses(str[0], tail);
      EscapedStringParses(str[1..], rest);
      assert [str[0]] + str[1..] == str;
    }
  }

  // ---------------------------------------------------------------------------
  // Numbers

  lemma DigitParses(d: nat)
    requires d < 10
    ensures IsDigit(Digit(d)) && DecimalDigit(Digit(d)) == d
  {
  }

  /** `NatToString` writes decimal digits that denote the number, with no leading zero. */
  lemma {:induction false} NatToStringDigits(n: nat)
    ensures forall i :: 0 <= i < |NatToString(n)| ==> IsDigit(NatToString(n)[i])
    ensures DigitsValue(NatToString(n)) == n
    ensures NatToString(n)[0] == '0' <==> n == 0
  {
    if n < 10 {
      DigitParses(n);
    } else {
      NatToStringDigits(n / 10);
      DigitParses(n % 10);
      var ds := NatToString(n);
      assert ds == NatToString(n / 10) + [Digit(n % 10)];
      assert ds[..|ds| - 1] == NatToString(n / 10);
      assert ds[0] == NatToString(n / 10)[0];
    }
  }

  /** A run of digits followed by a non-digit is a run of exactly that length. */
  lemma {:induction false} LeadingDigitsOf(ds: string, rest: string)
    requires forall i :: 0 <= i < |ds| ==> IsDigit(ds[i])
    requires |rest| == 0 || !IsDigit(rest[0])
    ensures LeadingDigits(ds + rest) == |ds|
  {
    if |ds| > 0 {
      LeadingDigitsOf(ds[1..], rest);
      assert (ds + rest)[1..] == ds[1..] + rest;
    }
  }

  /** What may follow a number for it to read back whole: no digit, fraction or exponent. */
  predicate EndsNumber(rest: string)
  {
    |rest| == 0 || !(IsDigit(rest[0]) || rest[0] == '.' || rest[0] == 'e' || rest[0] == 'E')
  }

  /** The digits `NatToString` writes, followed by what may end a number, read back as the number. */
  lemma NaturalParses(n: nat, rest: string)
    requires EndsNumber(rest)
    ensures ParseUnsigned(NatToString(n) + rest) == Some((n, rest))
  {
    var ds := NatToString(n);
    NatToStringDigits(n);
    LeadingDigitsOf(ds, rest);
    var u := ds + rest;
    assert u[0] == ds[0];
    assert u[..|ds|] == ds;
    assert u[|ds|..] == rest;
  }

  /** Every integer `JSON.stringify` writes reads back as itself. */
  lemma NumberParses(n: int, rest: string)
    requires EndsNumber(rest)
    ensures ParseNumber(IntToString(n) + rest) == Some((Num(n), rest))
  {
    if n < 0 {
      var m: nat := -n;
      NegativeParses(m, rest);
      assert IntToString(n) == "-" + NatToString(m);
      assert -(m as int) == n;
    } else {
      NonNegativeParses(n, rest);
    }
  }

  lemma NonNegativeParses(n: nat, rest: string)
    requires EndsNumber(rest)
    ensures ParseNumber(NatToString(n) + rest) == Some((Num(n), rest))
  {
    NaturalParses(n, rest);
    NatToStringDigits(n);
    var t := NatToString(n) + rest;
    assert t[0] == NatToString(n)[0] && t[0] != '-';
  }

  lemma NegativeParses(m: nat, rest: string)
    requires m > 0 && EndsNumber(rest)
    ensures ParseNumber("-" + NatToString(m) + rest) == Some((Num(-(m as int)), rest))
  {
    var u := NatToString(m) + rest;
    NaturalParses(m, rest);
    var t := "-" + NatToString(m) + rest;
    assert t[0] == '-' && t[1..] == u;
    assert ParseNumber(t) == Some((Num(-(m as int)), rest));
  }

  // ---------------------------------------------------------------------------
  // Values

  /** What may follow a value inside a document: its end, a comma, or a closing bracket or brace. */
  predicate Follows(rest: string)
  {
    |rest| == 0 || rest[0] == ',' || rest[0] == ']' || rest[0] == '}'
  }

  /** The first character of a JSON text: never whitespace, never a closing bracket or brace. */
  predicate OpensValue(c: char)
  {
    c == 'n' || c == 't' || c == 'f' || c == '"' || c == '[' || c == '{' || c == '-' || IsDigit(c)
  }

  lemma TextOpensValue(v: Value)
    requires Stringify(v).Some?
    ensures |Stringify(v).value| > 0 && OpensValue(Stringify(v).value[0])
  {
    match v {
      case Num(n) =>
        NatToStringDigits(if n < 0 then -n else n);
      case _ =>
    }
  }

  /** For JSON data, every element has a text of its own. */
  lemma {:induction false} ElementTextsOfData(items: seq<Value>)
    requires forall i :: 0 <= i < |items| ==> IsJsonData(items[i])
    ensures forall i :: 0 <= i < |items| ==> Stringify(items[i]).Some? && ElementTexts(items)[i] == Stringify(items[i]).value
  {
    if |items| > 0 {
      ElementTextsOfData(items[1..]);
      forall i | 1 <= i < |items|
        ensures ElementTexts(items)[i] == ElementTexts(items[1..])[i - 1]
      {
      }
    }
  }

  /** For JSON data, no member is skipped. */
  lemma {:induction false} MemberTextsOfData(members: seq<Member>)
    requires forall i :: 0 <= i < |members| ==> IsJsonData(members[i].value)
    ensures |MemberTexts(members)| == |members|
    ensures forall i :: 0 <= i < |members| ==>
      Stringify(members[i].value).Some? && MemberTexts(members)[i] == Quote(members[i].key) + ":" + Stringify(members[i].value).value
  {
    if |members| > 0 {
      MemberTextsOfData(members[1..]);
      forall i | 1 <= i < |members|
        ensures MemberTexts(members)[i] == MemberTexts(members[1..])[i - 1]
      {
      }
    }
  }

  /** Joining at least two texts: the first, the separator, the join of the others. */
  lemma JoinFirst(parts: seq<string>, sep: string)
    requires |parts| >= 2
    ensures Join(parts, sep) == parts[0] + sep + Join(parts[1..], sep)
  {
  }

  lemma ElementTextsTail(items: seq<Value>)
    requires |items| > 0
    ensures ElementTexts(items)[1..] == ElementTexts(items[1..])
  {
  }

  lemma MemberTextsTail(members: seq<Member>)
    requires |members| > 0 && Stringify(members[0].value).Some?
    ensures MemberTexts(members)[1..] == MemberTexts(members[1..])
  {
  }

  /** Every JSON value reads back from its text, leaving what follows it. */
  lemma {:induction false} ValueParses(v: Value, rest: string)
    requires IsJsonData(v) && Follows(rest)
    ensures ParseValue(Stringify(v).value + rest) == Some((v, rest))
    decreases v, 2
  {
    match v {
      case Arr(items) => ArrayParses(items, rest);
      case Obj(members) => ObjectParses(members, rest);
      case _ => AtomParses(v, rest);
    }
  }

  /** The text of a value, followed by `rest`, with no whitespace to skip. */
  lemma NoLeadingSpace(v: Value, rest: string)
    requires Stringify(v).Some?
    ensures SkipWs(Stringify(v).value + rest) == Stringify(v).value + rest
    ensures (Stringify(v).value + rest)[0] == Stringify(v).value[0]
  {
    TextOpensValue(v);
  }

  lemma AtomParses(v: Value, rest: string)
    requires v.Null? || v.Bool? || v.Num? || v.Str?
    requires Follows(rest)
    ensures ParseValue(Stringify(v).value + rest) == Some((v, rest))
  {
    NoLeadingSpace(v, rest);
    match v {
      case Null => KeywordParses("null", Null, rest);
      case Bool(b) => KeywordParses(if b then "true" else "false", v, rest);
      case Num(n) => NumberValueParses(n, rest);
      case Str(str) => StringValueParses(str, rest);
    }
  }

  lemma KeywordParses(word: string, v: Value, rest: string)
    requires (word == "null" && v == Null) || (word == "true" && v == Bool(true)) || (word == "false" && v == Bool(false))
    ensures ParseValue(word + rest) == Some((v, rest))
  {
    var s := word + rest;
    assert s[0] == word[0];
    assert s[..|word|] == word && s[|word|..] == rest;
  }

  lemma NumberValueParses(n: int, rest: string)
    requires Follows(rest)
    ensures ParseValue(IntToString(n) + rest) == Some((Num(n), rest))
  {
    var s := IntToString(n) + rest;
    NatToStringDigits(if n < 0 then -n else n);
    assert s[0] == IntToString(n)[0];
    NumberStep(s);
    NumberParses(n, rest);
  }

  /** A minus sign or a digit hands the text to the number parser. */
  lemma NumberStep(s: string)
    requires |s| > 0 && (s[0] == '-' || IsDigit(s[0]))
    ensures ParseValue(s) == ParseNumber(s)
  {
    assert !IsWs(s[0]) && SkipWs(s) == s;
    assert s[0] != 'n' && s[0] != 't' && s[0] != 'f' && s[0] != '"' && s[0] != '[' && s[0] != '{';
  }

  lemma StringValueParses(str: string, rest: string)
    ensures ParseValue(Quote(str) + rest) == Some((Str(str), rest))
  {
    var s := Quote(str) + rest;
    assert s[0] == '"' && !IsWs(s[0]) && SkipWs(s) == s;
    assert s[1..] == EscapeString(str) + "\"" + rest;
    EscapedStringParses(str, rest);
  }

  /** After whitespace, an opening bracket or brace hands the rest to the container parsers. */
  lemma ContainerStep(s: string)
    requires |s| > 0 && (s[0] == '[' || s[0] == '{')
    ensures s[0] == '[' ==> ParseValue(s) == ParseArray(s[1..])
    ensures s[0] == '{' ==> ParseValue(s) == ParseObject(s[1..])
  {
  }

  lemma {:induction false} ArrayParses(items: seq<Value>, rest: string)
    requires Follows(rest)
    requires forall i :: 0 <= i < |items| ==> IsJsonData(items[i])
    ensures ParseValue(Stringify(Arr(items)).value + rest) == Some((Arr(items), rest))
    decreases items, 2
  {
    ArrayOpens(items, rest);
    if |items| == 0 {
      assert Join(ElementTexts(items), ",") + "]" + rest == "]" + rest;
    } else {
      FilledArrayParses(items, rest);
    }
  }

  /** An array's text starts with its bracket: the rest goes to the array parser. */
  lemma ArrayOpens(items: seq<Value>, rest: string)
    requires Stringify(Arr(items)).Some?
    ensures ParseValue(Stringify(Arr(items)).value + rest) == ParseArray(Join(ElementTexts(items), ",") + "]" + rest)
  {
    var s := Stringify(Arr(items)).value + rest;
    NoLeadingSpace(Arr(items), rest);
    ContainerStep(s);
    assert s[1..] == Join(ElementTexts(items), ",") + "]" + rest;
  }

  /** A non-empty array after its opening bracket reads back as itself. */
  lemma {:induction false} FilledArrayParses(items: seq<Value>, rest: string)
    requires |items| > 0 && Follows(rest)
    requires forall i :: 0 <= i < |items| ==> IsJsonData(items[i])
    ensures ParseArray(Join(ElementTexts(items), ",") + "]" + rest) == Some((Arr(items), rest))
    decreases items, 1
  {
    var t := Join(ElementTexts(items), ",") + "]" + rest;
    ElementTextsOfData(items);
    TextOpensValue(items[0]);
    FirstOfJoin(ElementTexts(items), ",");
    assert SkipWs(t) == t;
    ElementsParse(items, rest);
  }

  lemma {:induction false} ObjectParses(members: seq<Member>, rest: string)
    requires Follows(rest)
    requires DistinctKeys(members)
    requires forall i :: 0 <= i < |members| ==> IsJsonData(members[i].value)
    ensures ParseValue(Stringify(Obj(members)).value + rest) == Some((Obj(members), rest))
    decreases members, 2
  {
    ObjectOpens(members, rest);
    if |members| == 0 {
      assert Join(MemberTexts(members), ",") + "}" + rest == "}" + rest;
    } else {
      FilledObjectParses(members, rest);
    }
  }

  /** An object's text starts with its brace: the rest goes to the object parser. */
  lemma ObjectOpens(members: seq<Member>, rest: string)
    requires Stringify(Obj(members)).Some?
    ensures ParseValue(Stringify(Obj(members)).value + rest) == ParseObject(Join(MemberTexts(members), ",") + "}" + rest)
  {
    var s := Stringify(Obj(members)).value + rest;
    NoLeadingSpace(Obj(members), rest);
    ContainerStep(s);
    assert s[1..] == Join(MemberTexts(members), ",") + "}" + rest;
  }

  /** A non-empty object after its opening brace reads back as itself. */
  lemma {:induction false} FilledObjectParses(members: seq<Member>, rest: string)
    requires |members| > 0 && Follows(rest)
    requires DistinctKeys(members)
    requires forall i :: 0 <= i < |members| ==> IsJsonData(members[i].value)
    ensures ParseObject(Join(MemberTexts(members), ",") + "}" + rest) == Some((Obj(members), rest))
    decreases members, 1
  {
    var t := Join(MemberTexts(members), ",") + "}" + rest;
    MembersOpenWithQuote(members, rest);
    MembersParse(members, rest);
    BuildDistinct([], members);
    assert [] + members == members;
  }

  /** The members' text opens with the first key's quote, so no whitespace is skipped. */
  lemma MembersOpenWithQuote(members: seq<Member>, rest: string)
    requires |members| > 0
    requires forall i :: 0 <= i < |members| ==> IsJsonData(members[i].value)
    ensures var t := Join(MemberTexts(members), ",") + "}" + rest; t[0] == '"' && SkipWs(t) == t
  {
    MemberTextsOfData(members);
    assert MemberTexts(members)[0] == Quote(members[0].key) + ":" + Stringify(members[0].value).value;
    assert MemberTexts(members)[0][0] == '"';
    FirstOfJoin(MemberTexts(members), ",");
  }

  /** A join of texts starts with the first text. */
  lemma FirstOfJoin(parts: seq<string>, sep: string)
    requires |parts| > 0 && |parts[0]| > 0
    ensures |Join(parts, sep)| > 0 && Join(parts, sep)[0] == parts[0][0]
  {
  }

  /** The elements of a non-empty array, after its opening bracket, read back in order. */
  lemma {:induction false} ElementsParse(items: seq<Value>, rest: string)
    requires |items| > 0 && Follows(rest)
    requires forall i :: 0 <= i < |items| ==> IsJsonData(items[i])
    ensures ParseElements(Join(ElementTexts(items), ",") + "]" + rest) == Some((items, rest))
    decreases items, 0
  {
    ElementsText(items, rest);
    var first := Stringify(items[0]).value;
    var after := ElementsAfter(items, rest);
    ValueParses(items[0], after);
    ElementsStep(first + after);
    if |items| > 1 {
      assert after[1..] == Join(ElementTexts(items[1..]), ",") + "]" + rest;
      ElementsParse(items[1..], rest);
      assert [items[0]] + items[1..] == items;
    } else {
      assert [items[0]] == items;
    }
  }

  /** The text after the first element of a non-empty array: the bracket, or a comma and the others. */
  function ElementsAfter(items: seq<Value>, rest: string): string
    requires |items| > 0
  {
    if |items| == 1 then "]" + rest else "," + (Join(ElementTexts(items[1..]), ",") + "]" + rest)
  }

  lemma ElementsText(items: seq<Value>, rest: string)
    requires |items| > 0
    requires forall i :: 0 <= i < |items| ==> IsJsonData(items[i])
    ensures Stringify(items[0]).Some?
    ensures Join(ElementTexts(items), ",") + "]" + rest == Stringify(items[0]).value + ElementsAfter(items, rest)
  {
    ElementTextsOfData(items);
    var texts := ElementTexts(items);
    if |items| == 1 {
      assert Join(texts, ",") == texts[0];
      Concat3(texts[0], "]", rest);
    } else {
      var others := Join(ElementTexts(items[1..]), ",");
      JoinFirst(texts, ",");
      ElementTextsTail(items);
      assert Join(texts, ",") == texts[0] + "," + others;
      Concat5(texts[0], ",", others, "]", rest);
    }
  }

  lemma Concat3(a: string, b: string, c: string)
    ensures a + b + c == a + (b + c)
  {
  }

  lemma Concat5(a: string, b: string, c: string, d: string, e: string)
    ensures a + b + c + d + e == a + (b + (c + d + e))
  {
  }

  /** One element read, the list either closes or goes on after a comma. */
  lemma ElementsStep(s: string)
    requires ParseValue(s).Some?
    ensures var p := ParseValue(s).value;
      |p.1| > 0 && p.1[0] == ']' ==> ParseElements(s) == Some(([p.0], p.1[1..]))
    ensures var p := ParseValue(s).value;
      |p.1| > 0 && p.1[0] == ',' && ParseElements(p.1[1..]).Some? ==>
        ParseElements(s) == Some(([p.0] + ParseElements(p.1[1..]).value.0, ParseElements(p.1[1..]).value.1))
  {
    var p := ParseValue(s).value;
    if |p.1| > 0 && (p.1[0] == ']' || p.1[0] == ',') {
      assert SkipWs(p.1) == p.1;
    }
  }

  /** The members of a non-empty object, after its opening brace, read back in order. */
  lemma {:induction false} MembersParse(members: seq<Member>, rest: string)
    requires |members| > 0 && Follows(rest)
    requires forall i :: 0 <= i < |members| ==> IsJsonData(members[i].value)
    ensures ParseMembers(Join(MemberTexts(members), ",") + "}" + rest) == Some((members, rest))
    decreases members, 0
  {
    MembersText(members, rest);
    var key := members[0].key;
    var value := members[0].value;
    var valueText := Stringify(value).value;
    var after := MembersAfter(members, rest);
    var keyRest := ":" + (valueText + after);
    var s := "\"" + (EscapeString(key) + "\"" + keyRest);
    EscapedStringParses(key, keyRest);
    assert s[1..] == EscapeString(key) + "\"" + keyRest;
    assert keyRest[1..] == valueText + after;
    ValueParses(value, after);
    MembersStep(s, key, keyRest, value, after);
    if |members| > 1 {
      assert after[1..] == Join(MemberTexts(members[1..]), ",") + "}" + rest;
      MembersParse(members[1..], rest);
      assert [Member(key, value)] + members[1..] == members;
    } else {
      assert [Member(key, value)] == members;
    }
  }

  /** The text after the first member of a non-empty object: the brace, or a comma and the others. */
  function MembersAfter(members: seq<Member>, rest: string): string
    requires |members| > 0
  {
    if |members| == 1 then "}" + rest else "," + (Join(MemberTexts(members[1..]), ",") + "}" + rest)
  }

  lemma MembersText(members: seq<Member>, rest: string)
    requires |members| > 0
    requires forall i :: 0 <= i < |members| ==> IsJsonData(members[i].value)
    ensures Stringify(members[0].value).Some?
    ensures Join(MemberTexts(members), ",") + "}" + rest
      == "\"" + (EscapeString(members[0].key) + "\"" + (":" + (Stringify(members[0].value).value + MembersAfter(members, rest))))
  {
    MemberTextsOfData(members);
    var texts := MemberTexts(members);
    var valueText := Stringify(members[0].value).value;
    var after := MembersAfter(members, rest);
    if |members| == 1 {
      assert Join(texts, ",") == texts[0];
      Concat3(texts[0], "}", rest);
    } else {
      var others := Join(MemberTexts(members[1..]), ",");
      JoinFirst(texts, ",");
      MemberTextsTail(members);
      assert Join(texts, ",") == texts[0] + "," + others;
      Concat5(texts[0], ",", others, "}", rest);
    }
    assert Join(texts, ",") + "}" + rest == texts[0] + after;
    assert texts[0] == Quote(members[0].key) + ":" + valueText;
    MemberTextSplit(members[0].key, valueText, after);
  }

  /** One `"key": value` member read, the object either closes or goes on after a comma. */
  lemma MembersStep(s: string, key: string, keyRest: string, value: Value, after: string)
    requires |s| > 0 && s[0] == '"'
    requires ParseString(s[1..]) == Some((key, keyRest))
    requires |keyRest| > 0 && keyRest[0] == ':'
    requires ParseValue(keyRest[1..]) == Some((value, after))
    requires |after| > 0
    ensures after[0] == '}' ==> ParseMembers(s) == Some(([Member(key, value)], after[1..]))
    ensures after[0] == ',' && ParseMembers(after[1..]).Some? ==>
      ParseMembers(s) == Some(([Member(key, value)] + ParseMembers(after[1..]).value.0, ParseMembers(after[1..]).value.1))
  {
    assert SkipWs(s) == s;
    assert SkipWs(keyRest) == keyRest;
    assert ParseMembers(s) == MemberValue(key, keyRest);
    if after[0] == '}' || after[0] == ',' {
      assert SkipWs(after) == after;
      assert MemberValue(key, keyRest) == MoreMembers(Member(key, value), after);
    }
  }

  lemma MemberTextSplit(key: string, valueText: string, after: string)
    ensures Quote(key) + ":" + valueText + after == "\"" + (EscapeString(key) + "\"" + (":" + (valueText + after)))
  {
  }

  /** Building an object from members with distinct keys keeps them all, in order. */
  lemma {:induction false} BuildDistinct(acc: seq<Member>, members: seq<Member>)
    requires DistinctKeys(acc + members)
    ensures BuildObject(acc, members) == acc + members
    decreases |members|
  {
    if |members| > 0 {
      BuildStep(acc, members);
      BuildDistinct(acc + [members[0]], members[1..]);
    }
  }

  /** One member with a key not yet present is appended; the keys stay distinct. */
  lemma BuildStep(acc: seq<Member>, members: seq<Member>)
    requires |members| > 0 && DistinctKeys(acc + members)
    ensures Put(acc, members[0]) == acc + [members[0]]
    ensures (acc + [members[0]]) + members[1..] == acc + members
  {
    var all := acc + members;
    assert !HasKey(acc, members[0].key) by {
      forall i | 0 <= i < |acc|
        ensures acc[i].key != members[0].key
      {
        assert all[i] == acc[i] && all[|acc|] == members[0];
      }
    }
  }

  // ---------------------------------------------------------------------------
  // Round trip

  /** `JSON.parse(JSON.stringify(v))` is `v` for every JSON value. */
  lemma DataRoundTrip(v: Value)
    requires IsJsonData(v)
    ensures Stringify(v).Some?
    ensures Parse(Stringify(v).value) == Ok(v)
  {
    ValueParses(v, "");
    assert Stringify(v).value + "" == Stringify(v).value;
  }

  /**
   * Whatever `JSON.parse` accepts is JSON data, so it has a JSON text, and
   * that text parses back to the same value.
   */
  lemma ParseRestringifies(text: string)
    requires Parse(text).Ok?
    ensures Stringify(Parse(text).value).Some?
    ensures Parse(Stringify(Parse(text).value).value) == Parse(text)
  {
    DataRoundTrip(Parse(text).value);
  }

  /** JSON values are their own normal form. */
  lemma {:induction false} NormalizeData(v: Value)
    requires IsJsonData(v)
    ensures Normalize(v) == v
    decreases v, 1
  {
    match v {
      case Arr(items) => NormalizeDataItems(items);
      case Obj(members) => NormalizeDataMembers(members);
      case Null =>
      case Bool(_) =>
      case Num(_) =>
      case Str(_) =>
    }
  }

  lemma {:induction false} NormalizeDataItems(items: seq<Value>)
    requires forall i :: 0 <= i < |items| ==> IsJsonData(items[i])
    ensures NormalizeItems(items) == items
    decreases items, 0
  {
    if |items| > 0 {
      NormalizeData(items[0]);
      NormalizeDataItems(items[1..]);
      assert [items[0]] + items[1..] == items;
    }
  }

  lemma {:induction false} NormalizeDataMembers(members: seq<Member>)
    requires forall i :: 0 <= i < |members| ==> IsJsonData(members[i].value)
    ensures NormalizeMembers(members) == members
    decreases members, 0
  {
    if |members| > 0 {
      NormalizeData(members[0].value);
      NormalizeDataMembers(members[1..]);
      assert [members[0]] + members[1..] == members;
    }
  }

  /** Normalizing does not change the JSON text. */
  lemma {:induction false} NormalizeText(v: Value)
    ensures Stringify(Normalize(v)) == Stringify(v)
    decreases v, 1
  {
    match v {
      case Arr(items) => NormalizeTextItems(items);
      case Obj(members) => NormalizeTextMembers(members);
      case RegExp(_, _) => EmptyObjectText();
      case Binary(_) => EmptyObjectText();
      case _ =>
    }
  }

  lemma EmptyObjectText()
    ensures Stringify(Obj([])) == Some("{}")
  {
    assert MemberTexts([]) == [];
    assert "{" + "" + "}" == "{}";
  }

  lemma {:induction false} NormalizeTextItems(items: seq<Value>)
    ensures ElementTexts(NormalizeItems(items)) == ElementTexts(items)
    decreases items, 0
  {
    if |items| > 0 {
      NormalizeText(items[0]);
      NormalizeTextItems(items[1..]);
      assert NormalizeItems(items)[1..] == NormalizeItems(items[1..]);
    }
  }

  lemma {:induction false} NormalizeTextMembers(members: seq<Member>)
    ensures MemberTexts(NormalizeMembers(members)) == MemberTexts(members)
    decreases members, 0
  {
    if |members| > 0 {
      NormalizeText(members[0].value);
      NormalizeTextMembers(members[1..]);
      if Stringify(members[0].value).Some? {
        var m := Member(members[0].key, Normalize(members[0].value));
        assert NormalizeMembers(members) == [m] + NormalizeMembers(members[1..]);
        assert ([m] + NormalizeMembers(members[1..]))[1..] == NormalizeMembers(members[1..]);
      }
    }
  }

  /** Normalizing keeps no key the object did not have. */
  lemma {:induction false} NormalizeKeys(members: seq<Member>, key: string)
    requires HasKey(NormalizeMembers(members), key)
    ensures HasKey(members, key)
  {
    if |members| > 0 {
      var rest := NormalizeMembers(members[1..]);
      if members[0].key != key {
        assert HasKey(rest, key) by {
          var i :| 0 <= i < |NormalizeMembers(members)| && NormalizeMembers(members)[i].key == key;
          if Stringify(members[0].value).Some? {
            assert NormalizeMembers(members)[i] == rest[i - 1];
          } else {
            assert NormalizeMembers(members)[i] == rest[i];
          }
        }
        NormalizeKeys(members[1..], key);
        var j :| 0 <= j < |members[1..]| && members[1..][j].key == key;
        assert members[j + 1].key == key;
      }
    }
  }

  lemma {:induction false} NormalizeDistinct(members: seq<Member>)
    requires DistinctKeys(members)
    ensures DistinctKeys(NormalizeMembers(members))
  {
    if |members| > 0 {
      NormalizeDistinct(members[1..]);
      if Stringify(members[0].value).Some? {
        var rest := NormalizeMembers(members[1..]);
        var all := NormalizeMembers(members);
        forall j | 0 <= j < |members[1..]|
          ensures members[1..][j].key != members[0].key
        {
          assert members[1..][j] == members[j + 1];
        }
        assert !HasKey(members[1..], members[0].key);
        forall i | 0 <= i < |rest|
          ensures rest[i].key != members[0].key
        {
          assert HasKey(rest, rest[i].key);
          NormalizeKeys(members[1..], rest[i].key);
        }
        forall i, j | 0 <= i < j < |all|
          ensures all[i].key != all[j].key
        {
          assert all[j] == rest[j - 1];
          if i > 0 {
            assert all[i] == rest[i - 1];
          }
        }
      }
    }
  }

  /** The normal form of a well-keyed value with a JSON text is a JSON value. */
  lemma {:induction false} NormalizeIsData(v: Value)
    requires WellKeyed(v) && Stringify(v).Some?
    ensures IsJsonData(Normalize(v))
    decreases v, 1
  {
    match v {
      case Arr(items) => NormalizeItemsAreData(items);
      case Obj(members) =>
        NormalizeMembersAreData(members);
        NormalizeDistinct(members);
      case _ =>
    }
  }

  lemma {:induction false} NormalizeItemsAreData(items: seq<Value>)
    requires forall i :: 0 <= i < |items| ==> WellKeyed(items[i])
    ensures forall i :: 0 <= i < |items| ==> IsJsonData(NormalizeItems(items)[i])
    decreases items, 0
  {
    if |items| > 0 {
      if Stringify(items[0]).Some? {
        NormalizeIsData(items[0]);
      }
      NormalizeItemsAreData(items[1..]);
      forall i | 1 <= i < |items|
        ensures NormalizeItems(items)[i] == NormalizeItems(items[1..])[i - 1]
      {
      }
    }
  }

  lemma {:induction false} NormalizeMembersAreData(members: seq<Member>)
    requires forall i :: 0 <= i < |members| ==> WellKeyed(members[i].value)
    ensures forall i :: 0 <= i < |NormalizeMembers(members)| ==> IsJsonData(NormalizeMembers(members)[i].value)
    decreases members, 0
  {
    if |members| > 0 {
      NormalizeMembersAreData(members[1..]);
      if Stringify(members[0].value).Some? {
        NormalizeIsData(members[0].value);
        var rest := NormalizeMembers(members[1..]);
        forall i | 1 <= i < |NormalizeMembers(members)|
          ensures NormalizeMembers(members)[i] == rest[i - 1]
        {
        }
      }
    }
  }

  /**
   * `JSON.parse(JSON.stringify(v))` for any value with a JSON text: the value
   * comes back in normal form.
   */
  lemma RoundTrip(v: Value)
    requires WellKeyed(v) && Stringify(v).Some?
    ensures Parse(Stringify(v).value) == Ok(Normalize(v))
  {
    NormalizeText(v);
    NormalizeIsData(v);
    DataRoundTrip(Normalize(v));
  }
}
