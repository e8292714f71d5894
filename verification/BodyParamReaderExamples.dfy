/**
 * The cases of the reader's unit tests, stated as lemmas about the model, and the two
 * bodies on which readBodyParam departs from the documented meaning of a path.
 */
module BodyParamReaderExamples {
  import opened Wrappers
  import opened Strings
  import opened NameMatchingModes
  import opened BodyParamReader

  /** The test converter: the JSON value itself, and nothing for a JSON null. */
  function Unconverted(n: Node): (r: Result<Option<Node>, string>)
    ensures r.Success? && (r.value.None? <==> n.Null?)
    ensures r.value.Some? ==> r.value.value == n
  {
    if n.Null? then Success(None) else Success(Some(n))
  }

  /** The path "parent.child" compiles to its two segments. */
  lemma TwoSegments(a: string, b: string)
    requires a != [] && b != [] && !IsBlank(a) && !IsBlank(b)
    requires '.' !in a && '.' !in b
    ensures ValidateAndCompileParamPath(Some(a + "." + b)) == Success([a, b])
  {
    SplitAround(a, b, '.');
    SplitWithoutSeparator(a, '.');
    SplitWithoutSeparator(b, '.');
    var p := a + "." + b;
    assert p == a + ['.'] + b;
    assert p[|a|] == '.' && !IsWhitespace(p[|a|]);
    assert p[0] == a[0] && p[|p| - 1] == b[|b| - 1];
    assert SplitOn(p, '.') == [a, b];
    assert forall k :: 0 <= k < 2 ==> !IsBlank([a, b][k]);
  }

  lemma OneSegment(a: string)
    requires !IsBlank(a) && '.' !in a
    ensures ValidateAndCompileParamPath(Some(a)) == Success([a])
  {
    SplitWithoutSeparator(a, '.');
  }

  lemma ReadsSinglePartPath()
    ensures Read(Some("single"), [("single", Text("value"))], Exact, Unconverted) == Success(Some(Text("value")))
  {
    assert !IsWhitespace("single"[0]);
    OneSegment("single");
  }

  lemma NothingForWrongSinglePartPath()
    ensures Read(Some("wrong"), [("single", Text("value"))], Exact, Unconverted) == Success(None)
  {
    assert !IsWhitespace("wrong"[0]);
    OneSegment("wrong");
  }

  lemma ReadsMultiPartPath()
    ensures Read(Some("parent" + "." + "child"), [("parent", Object([("child", Text("value"))]))], Exact, Unconverted)
            == Success(Some(Text("value")))
  {
    assert !IsWhitespace("parent"[0]) && !IsWhitespace("child"[0]);
    TwoSegments("parent", "child");
    var inner: Fields := [("child", Text("value"))];
    assert FirstMatch([("parent", Object(inner))], "parent", Exact) == Some(0);
    WalkDescends(["parent", "child"], 0, [("parent", Object(inner))], Exact, Unconverted, 0);
    assert FirstMatch(inner, "child", Exact) == Some(0);
    WalkLastSegment(["parent", "child"], inner, Exact, Unconverted);
  }

  lemma NothingForWrongMultiPartPath()
    ensures Read(Some("parent" + "." + "wrong"), [("parent", Object([("child", Text("value"))]))], Exact, Unconverted)
            == Success(None)
  {
    assert !IsWhitespace("parent"[0]) && !IsWhitespace("wrong"[0]);
    TwoSegments("parent", "wrong");
    var inner: Fields := [("child", Text("value"))];
    assert FirstMatch([("parent", Object(inner))], "parent", Exact) == Some(0);
    WalkDescends(["parent", "wrong"], 0, [("parent", Object(inner))], Exact, Unconverted, 0);
    assert FirstMatch(inner, "wrong", Exact) == None;
    WalkLastSegment(["parent", "wrong"], inner, Exact, Unconverted);
  }

  lemma NonObjectOnPathFails()
    ensures Read(Some("simple" + "." + "butnotnested"), [("simple", Text("value"))], Exact, Unconverted)
            == Failure(NotAnObject("simple"))
  {
    assert !IsWhitespace("simple"[0]) && !IsWhitespace("butnotnested"[0]);
    TwoSegments("simple", "butnotnested");
  }

  lemma InvalidPathsFail()
    ensures ValidateAndCompileParamPath(None) == Failure(NullPath)
    ensures ValidateAndCompileParamPath(Some("")) == Failure(BlankPath)
    ensures ValidateAndCompileParamPath(Some(".")) == Failure(PeriodAtEdge)
    ensures ValidateAndCompileParamPath(Some("parent" + ".")) == Failure(PeriodAtEdge)
    ensures ValidateAndCompileParamPath(Some("." + "child")) == Failure(PeriodAtEdge)
  {
    assert !IsWhitespace("."[0]);
    assert !IsWhitespace(("parent" + ".")[0]);
    assert !IsWhitespace(("." + "child")[0]);
  }

  /** Two periods in a row leave an empty piece between them. */
  lemma DoublePeriodEmptyPiece(a: string, b: string)
    ensures var pieces := SplitOn(a + "." + ("." + b), '.');
            |SplitOn(a, '.')| < |pieces| && pieces[|SplitOn(a, '.')|] == ""
  {
    assert a + "." + ("." + b) == a + ['.'] + ("." + b);
    SplitAround(a, "." + b, '.');
    SplitFirstPiece("." + b, '.');
  }

  /** Two periods in a row, and none at either end, make the path invalid as a blank segment. */
  lemma DoublePeriodIsBlankSegment(a: string, b: string)
    requires a != [] && b != [] && a[0] != '.' && b[|b| - 1] != '.'
    ensures ValidateAndCompileParamPath(Some(a + "." + ("." + b))) == Failure(BlankSegment(a + "." + ("." + b)))
  {
    var p := a + "." + ("." + b);
    var r := ValidateAndCompileParamPath(Some(p));
    DoublePeriodEmptyPiece(a, b);
    var k := |SplitOn(a, '.')|;
    assert IsBlank(SplitOn(p, '.')[k]);
    assert !r.Success?;
    assert p[|a|] == '.';
    assert !IsBlank(p) by { assert !IsWhitespace(p[|a|]); }
    assert p[0] == a[0] && p[|p| - 1] == b[|b| - 1];
    assert r != Failure(PeriodAtEdge);
  }

  /** A segment of whitespace only is blank, so "a. .b" is refused naming the whole path. */
  lemma WhitespaceSegmentIsBlankSegment(a: string, b: string)
    requires a != [] && b != [] && a[0] != '.' && b[|b| - 1] != '.'
    ensures ValidateAndCompileParamPath(Some(a + "." + (" " + "." + b))) == Failure(BlankSegment(a + "." + (" " + "." + b)))
  {
    var p := a + "." + (" " + "." + b);
    var r := ValidateAndCompileParamPath(Some(p));
    assert p == a + ['.'] + (" " + ['.'] + b);
    SplitAround(a, " " + "." + b, '.');
    SplitAround(" ", b, '.');
    SplitWithoutSeparator(" ", '.');
    assert SplitOn(p, '.')[|SplitOn(a, '.')|] == " ";
    assert IsBlank(" ");
    assert !r.Success?;
    assert p[|a|] == '.';
    assert !IsBlank(p) by { assert !IsWhitespace(p[|a|]); }
    assert p[0] == a[0] && p[|p| - 1] == b[|b| - 1];
  }

  lemma EmptySegmentFails()
    ensures ValidateAndCompileParamPath(Some("parent" + "." + ("." + "child")))
            == Failure(BlankSegment("parent" + "." + ("." + "child")))
  {
    DoublePeriodIsBlankSegment("parent", "child");
  }

  // -----------------------------------------------------------------------
  // Where the source's walk and the intended walk part ways

  /** A first segment that matches nothing is passed over: "a.b" finds the top-level "b". */
  lemma UnmatchedSegmentIsSkipped()
    ensures Read(Some("a" + "." + "b"), [("b", Text("v"))], Exact, Unconverted) == Success(Some(Text("v")))
    ensures ReadAsIntended(Some("a" + "." + "b"), [("b", Text("v"))], Exact, Unconverted) == Success(None)
  {
    assert !IsWhitespace("a"[0]) && !IsWhitespace("b"[0]);
    TwoSegments("a", "b");
    assert FirstMatch([("b", Text("v"))], "a", Exact) == None;
    WalkSkipsUnmatchedSegment(["a", "b"], 0, [("b", Text("v"))], Exact, Unconverted);
    assert FirstMatch([("b", Text("v"))], "b", Exact) == Some(0);
    WalkLastSegment(["a", "b"], [("b", Text("v"))], Exact, Unconverted);
  }

  /** Under IgnoreCase both "a" and "A" match the segment "a"; after descending into the
      first, the second is looked up in the child object, where it is absent (null). */
  lemma SecondMatchIsLookedUpInChild()
    ensures Read(Some("a" + "." + "x"), [("a", Object([("x", Text("v"))])), ("A", Text("w"))], IgnoreCase, Unconverted)
            == Failure(NullValue)
    ensures ReadAsIntended(Some("a" + "." + "x"), [("a", Object([("x", Text("v"))])), ("A", Text("w"))], IgnoreCase,
                           Unconverted)
            == Success(Some(Text("v")))
  {
    assert !IsWhitespace("a"[0]) && !IsWhitespace("x"[0]);
    TwoSegments("a", "x");
    SecondMatchWalk();
    FirstMatchDescend();
  }

  lemma SecondMatchWalk()
    ensures Walk(["a", "x"], 0, [("a", Object([("x", Text("v"))])), ("A", Text("w"))], IgnoreCase, Unconverted)
            == Failure(NullValue)
  {
    assert EqualsIgnoreCase("a", "a") && EqualsIgnoreCase("A", "a");
    var inner: Fields := [("x", Text("v"))];
    assert Get(inner, "A") == Null;
  }

  lemma FirstMatchDescend()
    ensures Descend(["a", "x"], 0, [("a", Object([("x", Text("v"))])), ("A", Text("w"))], IgnoreCase, Unconverted)
            == Success(Some(Text("v")))
  {
    assert EqualsIgnoreCase("a", "a") && EqualsIgnoreCase("x", "x");
    var inner: Fields := [("x", Text("v"))];
    assert FirstMatch([("a", Object(inner)), ("A", Text("w"))], "a", IgnoreCase) == Some(0);
    assert FirstMatch(inner, "x", IgnoreCase) == Some(0);
    assert Descend(["a", "x"], 1, inner, IgnoreCase, Unconverted) == Success(Some(Text("v")));
  }
}
