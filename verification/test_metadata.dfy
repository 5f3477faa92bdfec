/**
 * getTestMetadata (lib/commands/functions/getTestMetadata.js): the spec file
 * and the full title of the running test, read from the Mocha context Cypress
 * hands to hooks. The context is a plain value: `currentTest` and `test`
 * objects whose `parent` links lead up through the suites to the root suite.
 */
module TestMetadata {
  import opened Wrappers
  import opened JsValues
  import opened Errors
  import opened Json

  /** What the function returns: the spec file, the test's state and its full title. */
  datatype Metadata = Metadata(file: Value, state: Value, title: string)

  /** Where `key` first appears among the members: the member whose value a property read gives. */
  function KeyIndex(members: seq<Member>, key: string): (r: Option<nat>)
    ensures r.Some? ==> r.value < |members| && members[r.value].value == Lookup(members, key)
    ensures r.None? ==> Lookup(members, key) == Undefined
  {
    if |members| == 0 then None
    else if members[0].key == key then Some(0)
    else
      match KeyIndex(members[1..], key)
      case None => None
      case Some(k) => Some(k + 1)
  }

  /** `currentTest.invocationDetails ?? currentTest.parent?.invocationDetails` */
  function InvocationDetails(currentTest: Value): (r: Value)
    ensures !Nullish(Get(currentTest, "invocationDetails")) ==> r == Get(currentTest, "invocationDetails")
    ensures Nullish(Get(currentTest, "invocationDetails")) ==> r == Get(Get(currentTest, "parent"), "invocationDetails")
  {
    Coalesce(Get(currentTest, "invocationDetails"), Get(Get(currentTest, "parent"), "invocationDetails"))
  }

  /**
   * The spec file: the `test` object's `file` if set, else the current
   * test's, else the `relativeFile` of the invocation details.
   */
  function FileOf(test: Value, currentTest: Value): (r: Value)
    ensures !Nullish(Get(test, "file")) ==> r == Get(test, "file")
    ensures Nullish(Get(test, "file")) && !Nullish(Get(currentTest, "file")) ==> r == Get(currentTest, "file")
    ensures Nullish(Get(test, "file")) && Nullish(Get(currentTest, "file")) ==>
      r == Get(InvocationDetails(currentTest), "relativeFile")
  {
    Coalesce(Coalesce(Get(test, "file"), Get(currentTest, "file")), Get(InvocationDetails(currentTest), "relativeFile"))
  }

  /**
   * The loop over `parent` links: the titles of the suites from `parent` up
   * to, not including, the root suite, outermost first. A missing link
   * throws when its `root` is read.
   */
  function AncestorTitles(parent: Value): (r: Outcome<seq<Value>>)
    ensures Nullish(parent) ==> r.Err? && r.error.TypeError?
    ensures !Nullish(parent) && Truthy(Get(parent, "root")) ==> r == Ok([])
    decreases parent
  {
    if Nullish(parent) then Err(TypeError("Cannot read properties of " + ToText(parent) + " (reading 'root')"))
    else if Truthy(Get(parent, "root")) then Ok([])
    else if !parent.Obj? then Err(TypeError("Cannot read properties of undefined (reading 'root')"))
    else
      match KeyIndex(parent.members, "parent")
      case None => Err(TypeError("Cannot read properties of undefined (reading 'root')"))
      case Some(k) =>
        var outer :- AncestorTitles(parent.members[k].value);
        Ok(outer + [Get(parent, "title")])
  }

  /**
   * One step of the loop: below a suite that is not the root, the titles are
   * those from its parent up, then its own.
   */
  lemma AncestorStep(parent: Value)
    requires !Nullish(parent) && !Truthy(Get(parent, "root"))
    ensures AncestorTitles(parent).Ok? <==> AncestorTitles(Get(parent, "parent")).Ok?
    ensures AncestorTitles(parent).Ok? ==>
      AncestorTitles(parent).value == AncestorTitles(Get(parent, "parent")).value + [Get(parent, "title")]
  {
    if parent.Obj? {
      match KeyIndex(parent.members, "parent")
      case None =>
        assert Get(parent, "parent") == Undefined;
        assert AncestorTitles(parent).Err? && AncestorTitles(Undefined).Err?;
      case Some(k) =>
        assert parent.members[k].value == Get(parent, "parent");
        var outer := AncestorTitles(Get(parent, "parent"));
        if outer.Ok? {
          assert AncestorTitles(parent) == Ok(outer.value + [Get(parent, "title")]);
        } else {
          assert AncestorTitles(parent).Err?;
        }
    } else {
      assert Get(parent, "parent") == Undefined;
      assert AncestorTitles(parent).Err? && AncestorTitles(Undefined).Err?;
    }
  }

  /**
   * getTestMetadata: fails without a current test; a broken suite chain
   * throws next; then a missing file, then an empty title, fail in that
   * order. The title joins the suites' titles and the test's with `-`.
   */
  function GetTestMetadata(context: Value): (r: Outcome<Metadata>)
    ensures var currentTest := Get(Coalesce(context, Obj([])), "currentTest");
      !Truthy(currentTest) ==> r == Err(NoCurrentTest)
    ensures var ctx := Coalesce(context, Obj([]));
      var currentTest := Get(ctx, "currentTest");
      Truthy(currentTest) && AncestorTitles(Get(currentTest, "parent")).Ok? ==>
      var file := FileOf(Get(ctx, "test"), currentTest);
      var title := Join(JoinTexts(AncestorTitles(Get(currentTest, "parent")).value + [Get(currentTest, "title")]), "-");
      (!Truthy(file) ==> r == Err(NoFile))
      && (Truthy(file) && title == "" ==> r == Err(NoTitle))
      && (Truthy(file) && title != "" ==> r == Ok(Metadata(file, Get(currentTest, "state"), title)))
    ensures var currentTest := Get(Coalesce(context, Obj([])), "currentTest");
      Truthy(currentTest) && AncestorTitles(Get(currentTest, "parent")).Err? ==>
      r == Err(AncestorTitles(Get(currentTest, "parent")).error)
    ensures r.Ok? ==> Truthy(r.value.file) && r.value.title != ""
  {
    var ctx := Coalesce(context, Obj([]));
    var currentTest := Get(ctx, "currentTest");
    if !Truthy(currentTest) then Err(NoCurrentTest)
    else
      var file := FileOf(Get(ctx, "test"), currentTest);
      var titles :- AncestorTitles(Get(currentTest, "parent"));
      var title := Join(JoinTexts(titles + [Get(currentTest, "title")]), "-");
      if !Truthy(file) then Err(NoFile)
      else if title == "" then Err(NoTitle)
      else Ok(Metadata(file, Get(currentTest, "state"), title))
  }

  // ---------------------------------------------------------------------------
  // Properties
  // ---------------------------------------------------------------------------

  /** A suite chain with the given titles, outermost first, under a root suite. */
  function Chain(titles: seq<string>): (r: Value)
    ensures r.Obj? && |r.members| > 0
  {
    if |titles| == 0 then Obj([Member("root", Bool(true))])
    else Obj([Member("title", Str(titles[|titles| - 1])), Member("parent", Chain(titles[..|titles| - 1]))])
  }

  /** Every title as a string value. */
  function Strs(titles: seq<string>): (r: seq<Value>)
    ensures |r| == |titles| && forall i :: 0 <= i < |titles| ==> r[i] == Str(titles[i])
  {
    seq(|titles|, i requires 0 <= i < |titles| => Str(titles[i]))
  }

  /** Walking up a suite chain collects its titles outermost first, the root's left out. */
  lemma {:induction false} ChainTitles(titles: seq<string>)
    ensures AncestorTitles(Chain(titles)) == Ok(Strs(titles))
    decreases |titles|
  {
    if |titles| > 0 {
      var inner := titles[..|titles| - 1];
      var members := [Member("title", Str(titles[|titles| - 1])), Member("parent", Chain(inner))];
      assert members[1..][1..] == [];
      assert "title" != "root" && "parent" != "root" && "title" != "parent";
      assert Lookup(members, "root") == Lookup(members[1..], "root") == Lookup(members[1..][1..], "root") == Undefined;
      assert Lookup(members, "parent") == Lookup(members[1..], "parent") == Chain(inner);
      assert Lookup(members, "title") == Str(titles[|titles| - 1]);
      AncestorStep(Chain(titles));
      ChainTitles(inner);
      assert Strs(titles) == Strs(inner) + [Str(titles[|titles| - 1])];
    }
  }

  /** `Array.prototype.join` leaves string elements as they are. */
  lemma {:induction false} StrsJoinTexts(titles: seq<string>)
    ensures JoinTexts(Strs(titles)) == titles
    decreases |titles|
  {
    if |titles| > 0 {
      assert Strs(titles)[1..] == Strs(titles[1..]);
      StrsJoinTexts(titles[1..]);
      assert JoinText(Str(titles[0])) == titles[0];
      assert titles == [titles[0]] + titles[1..];
    }
  }

  /**
   * For a current test in a chain of suites, the title is the suites' titles
   * outermost first, then the test's, joined with `-`.
   */
  lemma FullTitle(suites: seq<string>, title: string, state: Value, file: string)
    requires file != ""
    ensures var currentTest := Obj([Member("title", Str(title)), Member("state", state), Member("file", Str(file)),
      Member("parent", Chain(suites))]);
      var r := GetTestMetadata(Obj([Member("currentTest", currentTest)]));
      Join(suites + [title], "-") != "" ==> r == Ok(Metadata(Str(file), state, Join(suites + [title], "-")))
  {
    var currentTest := Obj([Member("title", Str(title)), Member("state", state), Member("file", Str(file)),
      Member("parent", Chain(suites))]);
    TestFields(Str(title), state, Str(file), Chain(suites));
    OnlyCurrentTest(currentTest);
    ChainTitles(suites);
    TitlesJoinTexts(suites, title);
  }

  /** Reading back the four fields of a current test. */
  lemma TestFields(title: Value, state: Value, file: Value, parent: Value)
    ensures var ms := [Member("title", title), Member("state", state), Member("file", file), Member("parent", parent)];
      Get(Obj(ms), "title") == title && Get(Obj(ms), "state") == state
      && Get(Obj(ms), "file") == file && Get(Obj(ms), "parent") == parent
  {
    var ms := [Member("title", title), Member("state", state), Member("file", file), Member("parent", parent)];
    var ms1 := ms[1..];
    var ms2 := ms1[1..];
    var ms3 := ms2[1..];
    assert ms3 == [Member("parent", parent)];
    assert "title" != "parent" && "state" != "parent" && "file" != "parent";
    assert "title" != "file" && "state" != "file" && "title" != "state";
    assert Lookup(ms, "parent") == Lookup(ms1, "parent") == Lookup(ms2, "parent") == Lookup(ms3, "parent");
    assert Lookup(ms, "file") == Lookup(ms1, "file") == Lookup(ms2, "file");
    assert Lookup(ms, "state") == Lookup(ms1, "state");
  }

  /** A context holding only a current test has no `test` object. */
  lemma OnlyCurrentTest(currentTest: Value)
    ensures var ctx := Obj([Member("currentTest", currentTest)]);
      Coalesce(ctx, Obj([])) == ctx && Get(ctx, "currentTest") == currentTest && Get(ctx, "test") == Undefined
  {
    var ms := [Member("currentTest", currentTest)];
    assert Lookup(ms, "test") == Lookup(ms[1..], "test");
  }

  /** The suites' titles then the test's, as `join` writes them. */
  lemma TitlesJoinTexts(suites: seq<string>, title: string)
    ensures JoinTexts(Strs(suites) + [Str(title)]) == suites + [title]
  {
    StrsJoinTexts(suites + [title]);
    assert Strs(suites) + [Str(title)] == Strs(suites + [title]);
  }

  // ---------------------------------------------------------------------------
  // Scenarios from the function's tests
  // ---------------------------------------------------------------------------

  /** Without a context there is no current test. */
  lemma NoContextExample()
    ensures GetTestMetadata(Undefined) == Err(NoCurrentTest)
  {
  }

  /** A test without a file anywhere in the context fails on the file. */
  lemma MissingFileExample()
    ensures var currentTest := Obj([Member("title", Str("does thing")), Member("parent", Chain(["grandparent", "parent"]))]);
      GetTestMetadata(Obj([Member("test", Obj([])), Member("currentTest", currentTest)])) == Err(NoFile)
  {
    var ms := [Member("title", Str("does thing")), Member("parent", Chain(["grandparent", "parent"]))];
    assert ms[1..][1..] == [];
    assert "title" != "parent" && "title" != "file" && "parent" != "file" && "title" != "invocationDetails" && "parent" != "invocationDetails";
    assert Lookup(ms, "parent") == Lookup(ms[1..], "parent") == Chain(["grandparent", "parent"]);
    assert Lookup(ms, "file") == Lookup(ms[1..], "file") == Lookup(ms[1..][1..], "file") == Undefined;
    assert Lookup(ms, "invocationDetails") == Lookup(ms[1..], "invocationDetails") == Lookup(ms[1..][1..], "invocationDetails") == Undefined;
    var chain := Chain(["grandparent", "parent"]).members;
    assert chain[1..][1..] == [];
    assert Lookup(chain, "invocationDetails") == Lookup(chain[1..], "invocationDetails") == Lookup(chain[1..][1..], "invocationDetails") == Undefined;
    ChainTitles(["grandparent", "parent"]);
  }

  /** A test without a title directly under the root fails on the title, once its file is known. */
  lemma MissingTitleExample()
    ensures var currentTest := Obj([Member("parent", Chain([])), Member("file", Str("relative/path/to/file.js"))]);
      GetTestMetadata(Obj([Member("currentTest", currentTest)])) == Err(NoTitle)
  {
    var ms := [Member("parent", Chain([])), Member("file", Str("relative/path/to/file.js"))];
    assert ms[1..][1..] == [];
    assert "parent" != "file" && "parent" != "title";
    assert Lookup(ms, "file") == Lookup(ms[1..], "file") == Str("relative/path/to/file.js");
    assert Lookup(ms, "parent") == Chain([]);
    assert Lookup(ms, "title") == Lookup(ms[1..], "title") == Lookup(ms[1..][1..], "title") == Undefined;
    ChainTitles([]);
    assert JoinTexts([Undefined]) == [""];
  }

  /** The test's own example: two suites under the root give "grandparent-parent-does thing". */
  lemma NestedSuitesExample()
    ensures var currentTest := Obj([Member("title", Str("does thing")), Member("state", Str("passed")),
      Member("file", Str("relative/path/to/file.js")), Member("parent", Chain(["grandparent", "parent"]))]);
      GetTestMetadata(Obj([Member("currentTest", currentTest)]))
        == Ok(Metadata(Str("relative/path/to/file.js"), Str("passed"), "grandparent-parent-does thing"))
  {
    FullTitle(["grandparent", "parent"], "does thing", Str("passed"), "relative/path/to/file.js");
    JoinExample();
  }

  /** The three titles of the example, joined. */
  lemma JoinExample()
    ensures Join(["grandparent", "parent"] + ["does thing"], "-") == "grandparent-parent-does thing"
  {
    var parts: seq<string> := ["grandparent", "parent"] + ["does thing"];
    assert parts == ["grandparent", "parent", "does thing"];
    assert parts[1..] == ["parent", "does thing"] && parts[1..][1..] == ["does thing"];
    assert Join(parts[1..][1..], "-") == "does thing";
    assert Join(parts[1..], "-") == "parent" + "-" + "does thing";
  }
}
