/**
 * stringifyBody (lib/commands/functions/stringifyBody.js): the JSON text of a
 * recorded body with some properties removed. A property is named by its
 * path from the root: word keys joined by dots (`array.0.quux`), any other
 * key in brackets as a JSON string (`array.0["A Nested Array"]`).
 *
 * The source does this with a `JSON.stringify` replacer that remembers, for
 * each object it has visited, the path it was reached by. On tree-shaped data
 * (no object reachable twice) that is the path passed down the recursion
 * here.
 */
module StringifyBody {
  import opened Wrappers
  import opened JsValues
  import opened Json

  /** A character of the regular-expression class `\w`. */
  predicate WordChar(c: char)
  {
    ('a' <= c <= 'z') || ('A' <= c <= 'Z') || ('0' <= c <= '9') || c == '_'
  }

  /** The key matches `^\w+$` and is written after a dot. */
  predicate IsWord(key: string)
  {
    |key| > 0 && forall i :: 0 <= i < |key| ==> WordChar(key[i])
  }

  /** getPropertyPathSegment: the key itself, or `[` JSON string `]`. */
  function Segment(key: string): (r: string)
    ensures IsWord(key) ==> r == key
    ensures !IsWord(key) ==> r == "[" + Quote(key) + "]"
  {
    if IsWord(key) then key else "[" + Quote(key) + "]"
  }

  /** The path of property `key` of an object reached by `base`. */
  function PathOf(base: string, key: string): (r: string)
    ensures base == "" ==> r == Segment(key)
    ensures base != "" && IsWord(key) ==> r == base + "." + key
    ensures !IsWord(key) ==> r == base + "[" + Quote(key) + "]"
  {
    if base == "" then Segment(key)
    else if IsWord(key) then base + "." + key
    else base + Segment(key)
  }

  /** An array index as the replacer sees it: a decimal string, which is always a word. */
  function IndexKey(i: nat): (r: string)
    ensures IsWord(r)
  {
    NatWord(i);
    NatToString(i)
  }

  lemma {:induction false} NatWord(n: nat)
    ensures IsWord(NatToString(n))
    decreases n
  {
    if n >= 10 {
      NatWord(n / 10);
    }
  }

  /**
   * The JSON text of `v`, reached by `base`, as the replacer writes it: a
   * removed array element becomes `null`, a removed member disappears. A
   * member with the empty key is the replacer's "root" case: it is kept, and
   * its own members' paths start from the root again.
   */
  function Encode(v: Value, base: string, removed: seq<string>): Option<string>
    decreases v
  {
    match v
    case Arr(items) => Some("[" + Join(EncodeItems(items, base, 0, removed), ",") + "]")
    case Obj(members) => Some("{" + Join(EncodeMembers(members, base, removed), ",") + "}")
    case _ => Stringify(v)
  }

  function EncodeItems(items: seq<Value>, base: string, index: nat, removed: seq<string>): (r: seq<string>)
    ensures |r| == |items|
    decreases items
  {
    if |items| == 0 then []
    else
      var path := PathOf(base, IndexKey(index));
      var text := if path in removed then "null" else Encode(items[0], path, removed).GetOr("null");
      [text] + EncodeItems(items[1..], base, index + 1, removed)
  }

  function EncodeMembers(members: seq<Member>, base: string, removed: seq<string>): (r: seq<string>)
    ensures |r| <= |members|
    decreases members
  {
    if |members| == 0 then []
    else
      var m := members[0];
      var rest := EncodeMembers(members[1..], base, removed);
      if m.key == "" then
        match Encode(m.value, "", removed)
        case Some(t) => [Quote(m.key) + ":" + t] + rest
        case None => rest
      else
        var path := PathOf(base, m.key);
        if path in removed then rest
        else
          match Encode(m.value, path, removed)
          case Some(t) => [Quote(m.key) + ":" + t] + rest
          case None => rest
  }

  /** stringifyBody: a string body is returned as it is; anything else is encoded from the root. */
  function StringifyBody(body: Value, removed: seq<string>): (r: Option<string>)
    ensures body.Str? ==> r == Some(body.s)
    ensures !body.Str? ==> (r.None? <==> (body.Undefined? || body.Func?))
  {
    if body.Str? then Some(body.s)
    else
      var r := Encode(body, "", removed);
      assert r.None? <==> (body.Undefined? || body.Func?) by {
        EncodeDefined(body, "", removed);
      }
      r
  }

  lemma EncodeDefined(v: Value, base: string, removed: seq<string>)
    ensures Encode(v, base, removed).None? <==> (v.Undefined? || v.Func?)
  {
  }

  /**
   * The reference definition: the body with every removed property taken
   * out. A removed array element becomes `undefined`, which keeps the other
   * elements' indices.
   */
  function Prune(v: Value, base: string, removed: seq<string>): (r: Value)
    ensures v.Arr? <==> r.Arr?
    ensures v.Obj? <==> r.Obj?
    ensures v.Arr? ==> |r.items| == |v.items|
    ensures !v.Arr? && !v.Obj? ==> r == v
    decreases v
  {
    match v
    case Arr(items) => Arr(PruneItems(items, base, 0, removed))
    case Obj(members) => Obj(PruneMembers(members, base, removed))
    case _ => v
  }

  function PruneItems(items: seq<Value>, base: string, index: nat, removed: seq<string>): (r: seq<Value>)
    ensures |r| == |items|
    decreases items
  {
    if |items| == 0 then []
    else
      var path := PathOf(base, IndexKey(index));
      [if path in removed then Undefined else Prune(items[0], path, removed)]
        + PruneItems(items[1..], base, index + 1, removed)
  }

  function PruneMembers(members: seq<Member>, base: string, removed: seq<string>): (r: seq<Member>)
    ensures |r| <= |members|
    decreases members
  {
    if |members| == 0 then []
    else
      var m := members[0];
      var rest := PruneMembers(members[1..], base, removed);
      if m.key == "" then [Member(m.key, Prune(m.value, "", removed))] + rest
      else
        var path := PathOf(base, m.key);
        if path in removed then rest else [Member(m.key, Prune(m.value, path, removed))] + rest
  }

  /** The replacer's output is `JSON.stringify` of the pruned body. */
  lemma {:induction false} EncodeIsStringifyPruned(v: Value, base: string, removed: seq<string>)
    ensures Encode(v, base, removed) == Stringify(Prune(v, base, removed))
    decreases v, 1
  {
    match v
    case Arr(items) =>
      EncodeItemsArePruned(items, base, 0, removed);
    case Obj(members) =>
      EncodeMembersArePruned(members, base, removed);
    case _ =>
  }

  lemma {:induction false} EncodeItemsArePruned(items: seq<Value>, base: string, index: nat, removed: seq<string>)
    ensures EncodeItems(items, base, index, removed) == ElementTexts(PruneItems(items, base, index, removed))
    decreases items, 0
  {
    if |items| > 0 {
      var path := PathOf(base, IndexKey(index));
      EncodeItemsArePruned(items[1..], base, index + 1, removed);
      if path !in removed {
        EncodeIsStringifyPruned(items[0], path, removed);
      }
      var pruned := PruneItems(items, base, index, removed);
      assert pruned[1..] == PruneItems(items[1..], base, index + 1, removed);
    }
  }

  lemma {:induction false} EncodeMembersArePruned(members: seq<Member>, base: string, removed: seq<string>)
    ensures EncodeMembers(members, base, removed) == MemberTexts(PruneMembers(members, base, removed))
    decreases members, 0
  {
    if |members| > 0 {
      var m := members[0];
      EncodeMembersArePruned(members[1..], base, removed);
      if m.key == "" {
        EncodeIsStringifyPruned(m.value, "", removed);
        MemberTextsCons(Member(m.key, Prune(m.value, "", removed)), PruneMembers(members[1..], base, removed));
      } else {
        var path := PathOf(base, m.key);
        if path !in removed {
          EncodeIsStringifyPruned(m.value, path, removed);
          MemberTextsCons(Member(m.key, Prune(m.value, path, removed)), PruneMembers(members[1..], base, removed));
        }
      }
    }
  }

  lemma MemberTextsCons(m: Member, rest: seq<Member>)
    ensures MemberTexts([m] + rest)
      == (match Stringify(m.value) case Some(t) => [Quote(m.key) + ":" + t] case None => []) + MemberTexts(rest)
  {
    assert ([m] + rest)[1..] == rest;
  }

  /** stringifyBody of a body that is not a string is `JSON.stringify` of the body with the removed properties taken out. */
  lemma StringifyBodyIsPruned(body: Value, removed: seq<string>)
    requires !body.Str?
    ensures StringifyBody(body, removed) == Stringify(Prune(body, "", removed))
  {
    EncodeIsStringifyPruned(body, "", removed);
  }

  /** Removing nothing leaves every value as it is. */
  lemma {:induction false} PruneNothing(v: Value, base: string)
    ensures Prune(v, base, []) == v
    decreases v, 1
  {
    match v
    case Arr(items) => PruneItemsNothing(items, base, 0);
    case Obj(members) => PruneMembersNothing(members, base);
    case _ =>
  }

  lemma {:induction false} PruneItemsNothing(items: seq<Value>, base: string, index: nat)
    ensures PruneItems(items, base, index, []) == items
    decreases items, 0
  {
    if |items| > 0 {
      PruneNothing(items[0], PathOf(base, IndexKey(index)));
      PruneItemsNothing(items[1..], base, index + 1);
      assert items == [items[0]] + items[1..];
    }
  }

  lemma {:induction false} PruneMembersNothing(members: seq<Member>, base: string)
    ensures PruneMembers(members, base, []) == members
    decreases members, 0
  {
    if |members| > 0 {
      var m := members[0];
      PruneNothing(m.value, if m.key == "" then "" else PathOf(base, m.key));
      PruneMembersNothing(members[1..], base);
      assert members == [m] + members[1..];
    }
  }

  /** With nothing to remove, stringifyBody is plain `JSON.stringify` (or the string itself). */
  lemma NothingRemoved(body: Value)
    ensures !body.Str? ==> StringifyBody(body, []) == Stringify(body)
  {
    if !body.Str? {
      StringifyBodyIsPruned(body, []);
      PruneNothing(body, "");
    }
  }

  /** Pruning only takes away: removing nothing twice over changes nothing more. */
  lemma {:induction false} PruneIdempotent(v: Value, base: string, removed: seq<string>)
    ensures Prune(Prune(v, base, removed), base, removed) == Prune(v, base, removed)
    decreases v, 1
  {
    match v
    case Arr(items) => PruneItemsIdempotent(items, base, 0, removed);
    case Obj(members) => PruneMembersIdempotent(members, base, removed);
    case _ =>
  }

  lemma {:induction false} PruneItemsIdempotent(items: seq<Value>, base: string, index: nat, removed: seq<string>)
    ensures PruneItems(PruneItems(items, base, index, removed), base, index, removed) == PruneItems(items, base, index, removed)
    decreases items, 0
  {
    if |items| > 0 {
      var path := PathOf(base, IndexKey(index));
      var once := PruneItems(items, base, index, removed);
      PruneItemsIdempotent(items[1..], base, index + 1, removed);
      if path !in removed {
        PruneIdempotent(items[0], path, removed);
      }
      assert once[1..] == PruneItems(items[1..], base, index + 1, removed);
    }
  }

  lemma {:induction false} PruneMembersIdempotent(members: seq<Member>, base: string, removed: seq<string>)
    ensures PruneMembers(PruneMembers(members, base, removed), base, removed) == PruneMembers(members, base, removed)
    decreases members, 0
  {
    if |members| > 0 {
      var m := members[0];
      var rest := PruneMembers(members[1..], base, removed);
      PruneMembersIdempotent(members[1..], base, removed);
      if m.key == "" {
        PruneIdempotent(m.value, "", removed);
        assert ([Member(m.key, Prune(m.value, "", removed))] + rest)[1..] == rest;
      } else {
        var path := PathOf(base, m.key);
        if path !in removed {
          PruneIdempotent(m.value, path, removed);
          assert ([Member(m.key, Prune(m.value, path, removed))] + rest)[1..] == rest;
        }
      }
    }
  }

  /** A string body is returned untouched, whatever is to be removed. */
  lemma StringExample()
    ensures StringifyBody(Str("body-string"), []) == Some("body-string")
  {
  }

  /** The removals of the source's own example. */
  const ExampleRemoved: seq<string> :=
    ["foo", "nested1.nested2.baz", "array.0.quux", "array.0[\"A Nested Array\"].0.waldo", "array.1.xyzzy"]

  /** A path of a length no removal has is not removed. */
  lemma NotRemoved(path: string, removed: seq<string>)
    requires forall i :: 0 <= i < |removed| ==> |removed[i]| != |path|
    ensures path !in removed
  {
  }

  /** Which keys of the example are words. */
  lemma ExampleKeys()
    ensures IsWord("foo") && IsWord("nested1") && IsWord("nested2") && IsWord("baz") && IsWord("array")
    ensures IsWord("quux") && IsWord("waldo") && IsWord("xyzzy") && !IsWord("A Nested Array")
  {
    assert forall i :: 0 <= i < 3 ==> WordChar("foo"[i]);
    assert forall i :: 0 <= i < 7 ==> WordChar("nested1"[i]);
    assert forall i :: 0 <= i < 7 ==> WordChar("nested2"[i]);
    assert forall i :: 0 <= i < 3 ==> WordChar("baz"[i]);
    assert forall i :: 0 <= i < 5 ==> WordChar("array"[i]);
    assert forall i :: 0 <= i < 4 ==> WordChar("quux"[i]);
    assert forall i :: 0 <= i < 5 ==> WordChar("waldo"[i]);
    assert forall i :: 0 <= i < 5 ==> WordChar("xyzzy"[i]);
    assert !WordChar("A Nested Array"[1]);
  }

  /** The bracketed path of the nested array. */
  lemma NestedArrayPath()
    ensures PathOf("array.0", "A Nested Array") == "array.0[\"A Nested Array\"]"
    ensures "array.0[\"A Nested Array\"]" !in ExampleRemoved
  {
    NestedArrayNotRemoved();
    assert "array.0" + "[" + ("\"" + "A Nested Array" + "\"") + "]" == "array.0[\"A Nested Array\"]";
    EscapePlain("A Nested Array");
    ExampleKeys();
  }

  lemma NestedArrayNotRemoved()
    ensures "array.0[\"A Nested Array\"]" !in ExampleRemoved
  {
    var p := "array.0[\"A Nested Array\"]";
    assert |p| == 25;
    assert |ExampleRemoved[0]| == 3 && |ExampleRemoved[1]| == 19 && |ExampleRemoved[2]| == 12;
    assert |ExampleRemoved[3]| == 33 && |ExampleRemoved[4]| == 13;
  }

  /** `[{ waldo: 'fred' }]` inside `array.0`, and what is left of it. */
  lemma WaldoPruned()
    ensures Prune(Arr([Obj([Member("waldo", Str("fred"))])]), "array.0[\"A Nested Array\"]", ExampleRemoved)
      == Arr([Obj([])])
  {
    ExampleKeys();
    var p1 := "array.0[\"A Nested Array\"]";
    var p0 := "array.0[\"A Nested Array\"].0";
    assert p1 + "." + "0" == p0;
    assert p0 + "." + "waldo" == ExampleRemoved[3];
    assert IndexKey(0) == "0";
    assert PathOf(p0, "waldo") == ExampleRemoved[3];
    NotRemoved(p0, ExampleRemoved);
    assert PathOf(p1, IndexKey(0)) == p0;
    assert [Obj([Member("waldo", Str("fred"))])][1..] == [];
    assert [Member("waldo", Str("fred"))][1..] == [];
  }

  /** The first element of `array`: `quux` goes, the nested array keeps an empty object. */
  lemma FirstElementPruned()
    ensures Prune(Obj([Member("quux", Str("garply")), Member("A Nested Array", Arr([Obj([Member("waldo", Str("fred"))])]))]), "array.0", ExampleRemoved)
      == Obj([Member("A Nested Array", Arr([Obj([])]))])
  {
    FirstElementPaths();
    WaldoPruned();
    DropKeep(Member("quux", Str("garply")), Member("A Nested Array", Arr([Obj([Member("waldo", Str("fred"))])])), "array.0", ExampleRemoved);
  }

  lemma FirstElementPaths()
    ensures PathOf("array.0", "quux") in ExampleRemoved
    ensures PathOf("array.0", "A Nested Array") == "array.0[\"A Nested Array\"]"
    ensures "array.0[\"A Nested Array\"]" !in ExampleRemoved
  {
    ExampleKeys();
    assert "array.0" + "." + "quux" == ExampleRemoved[2];
    NestedArrayPath();
  }

  /** A first member whose path is removed disappears. */
  lemma DropFirst(members: seq<Member>, base: string, removed: seq<string>)
    requires |members| > 0 && members[0].key != "" && PathOf(base, members[0].key) in removed
    ensures PruneMembers(members, base, removed) == PruneMembers(members[1..], base, removed)
  {
  }

  /** A first member whose path is kept stays, pruned below. */
  lemma KeepFirst(members: seq<Member>, base: string, removed: seq<string>)
    requires |members| > 0 && members[0].key != "" && PathOf(base, members[0].key) !in removed
    ensures PruneMembers(members, base, removed)
      == [Member(members[0].key, Prune(members[0].value, PathOf(base, members[0].key), removed))]
        + PruneMembers(members[1..], base, removed)
  {
  }

  /** Of two members, the first removed and the second kept. */
  lemma DropKeep(a: Member, b: Member, base: string, removed: seq<string>)
    requires a.key != "" && PathOf(base, a.key) in removed
    requires b.key != "" && PathOf(base, b.key) !in removed
    ensures Prune(Obj([a, b]), base, removed) == Obj([Member(b.key, Prune(b.value, PathOf(base, b.key), removed))])
  {
    assert [a, b][1..] == [b];
    KeepFirst([b], base, removed);
    assert [b][1..] == [];
  }

  /** Of three members, the first removed and the other two kept. */
  lemma DropKeepKeep(a: Member, b: Member, c: Member, base: string, removed: seq<string>)
    requires a.key != "" && PathOf(base, a.key) in removed
    requires b.key != "" && PathOf(base, b.key) !in removed
    requires c.key != "" && PathOf(base, c.key) !in removed
    ensures Prune(Obj([a, b, c]), base, removed)
      == Obj([Member(b.key, Prune(b.value, PathOf(base, b.key), removed)), Member(c.key, Prune(c.value, PathOf(base, c.key), removed))])
  {
    assert [a, b, c][1..] == [b, c];
    KeepFirst([b, c], base, removed);
    assert [b, c][1..] == [c];
    KeepFirst([c], base, removed);
    assert [c][1..] == [];
  }

  /** Two array elements at paths that are not removed are both pruned in place. */
  lemma KeepTwoItems(x: Value, y: Value, base: string, removed: seq<string>)
    requires PathOf(base, IndexKey(0)) !in removed && PathOf(base, IndexKey(1)) !in removed
    ensures Prune(Arr([x, y]), base, removed)
      == Arr([Prune(x, PathOf(base, IndexKey(0)), removed), Prune(y, PathOf(base, IndexKey(1)), removed)])
  {
    assert [x, y][1..] == [y];
    assert [y][1..] == [];
    assert PruneItems([y], base, 1, removed) == [Prune(y, PathOf(base, IndexKey(1)), removed)] + PruneItems([], base, 2, removed);
  }

  /** The second element of `array`: `xyzzy` goes. */
  lemma SecondElementPruned()
    ensures Prune(Obj([Member("xyzzy", Str("thud"))]), "array.1", ExampleRemoved) == Obj([])
  {
    ExampleKeys();
    assert "array.1" + "." + "xyzzy" == ExampleRemoved[4];
    assert [Member("xyzzy", Str("thud"))][1..] == [];
  }

  /** The element paths of `array`, neither of them removed. */
  lemma ArrayPaths()
    ensures PathOf("array", IndexKey(0)) == "array.0" && "array.0" !in ExampleRemoved
    ensures PathOf("array", IndexKey(1)) == "array.1" && "array.1" !in ExampleRemoved
  {
    ExampleKeys();
    assert "array" + "." + "0" == "array.0";
    assert "array" + "." + "1" == "array.1";
    assert IndexKey(0) == "0";
    assert IndexKey(1) == "1";
    NotRemoved("array.0", ExampleRemoved);
    NotRemoved("array.1", ExampleRemoved);
  }

  /** `array` itself: both elements stay, pruned. */
  lemma ArrayPruned()
    ensures Prune(Arr([Obj([Member("quux", Str("garply")), Member("A Nested Array", Arr([Obj([Member("waldo", Str("fred"))])]))]),
                       Obj([Member("xyzzy", Str("thud"))])]), "array", ExampleRemoved)
      == Arr([Obj([Member("A Nested Array", Arr([Obj([])]))]), Obj([])])
  {
    ArrayPaths();
    KeepTwoItems(Obj([Member("quux", Str("garply")), Member("A Nested Array", Arr([Obj([Member("waldo", Str("fred"))])]))]),
                 Obj([Member("xyzzy", Str("thud"))]), "array", ExampleRemoved);
    FirstElementPruned();
    SecondElementPruned();
  }

  /** `nested1`: `nested2` stays, emptied of `baz`. */
  lemma NestedPruned()
    ensures Prune(Obj([Member("nested2", Obj([Member("baz", Str("qux"))]))]), "nested1", ExampleRemoved)
      == Obj([Member("nested2", Obj([]))])
  {
    ExampleKeys();
    assert "nested1" + "." + "nested2" == "nested1.nested2";
    assert "nested1.nested2" + "." + "baz" == ExampleRemoved[1];
    assert "nested1.nested2" !in ExampleRemoved;
    assert [Member("nested2", Obj([Member("baz", Str("qux"))]))][1..] == [];
    assert [Member("baz", Str("qux"))][1..] == [];
  }

  /** The body of the source's own example. */
  function ExampleBody(): Value
  {
    Obj([Member("foo", Str("bar")),
         Member("nested1", Obj([Member("nested2", Obj([Member("baz", Str("qux"))]))])),
         Member("array", Arr([Obj([Member("quux", Str("garply")), Member("A Nested Array", Arr([Obj([Member("waldo", Str("fred"))])]))]),
                              Obj([Member("xyzzy", Str("thud"))])]))])
  }

  /** What the source's example expects back: `foo` gone, and every removed leaf gone from its object. */
  function ExampleExpected(): Value
  {
    Obj([Member("nested1", Obj([Member("nested2", Obj([]))])),
         Member("array", Arr([Obj([Member("A Nested Array", Arr([Obj([])]))]), Obj([])]))])
  }

  /** The source's example: the text of the body with the five properties removed is the text of the expected object. */
  lemma RemovalExample()
    ensures StringifyBody(ExampleBody(), ExampleRemoved) == Stringify(ExampleExpected())
  {
    StringifyBodyIsPruned(ExampleBody(), ExampleRemoved);
    ExamplePruned();
  }

  /** The example body, pruned, is the expected object. */
  lemma ExamplePruned()
    ensures Prune(ExampleBody(), "", ExampleRemoved) == ExampleExpected()
  {
    RootPaths();
    NestedPruned();
    ArrayPruned();
    var ms := ExampleBody().members;
    DropKeepKeep(ms[0], ms[1], ms[2], "", ExampleRemoved);
  }

  /** The paths of the three members of the example's root. */
  lemma RootPaths()
    ensures PathOf("", "foo") == "foo" && "foo" in ExampleRemoved
    ensures PathOf("", "nested1") == "nested1" && "nested1" !in ExampleRemoved
    ensures PathOf("", "array") == "array" && "array" !in ExampleRemoved
  {
    ExampleKeys();
    assert ExampleRemoved[0] == "foo";
  }
}
