/** Worked cases of the placeholder engine on concrete strings. */
module Scenarios {
  import opened Outcomes
  import opened Scanner
  import opened Substitution
  import opened Tree
  import opened Writer

  lemma GreetingToken()
    ensures TokenLength("{{name}}.txt", 0) == 8
    ensures NameAt("{{name}}.txt", 0, 8) == "name"
  {
    var s := "{{name}}.txt";
    assert s[6] == '}' && RunLength(s, 6) == 0;
    assert RunLength(s, 5) == 1;
    assert RunLength(s, 4) == 2;
    assert RunLength(s, 3) == 3;
    assert RunLength(s, 2) == 4;
    assert s[2..6] == "name";
    assert s[0] == '{' && s[1] == '{' && s[7] == '}';
  }

  lemma GreetingTail()
    ensures ScanFrom("{{name}}.txt", 8) == [Text('.'), Text('t'), Text('x'), Text('t')]
  {
    var s := "{{name}}.txt";
    assert ScanFrom(s, 12) == [];
    assert ScanFrom(s, 11) == [Text('t')];
    assert ScanFrom(s, 10) == [Text('x'), Text('t')];
    assert ScanFrom(s, 9) == [Text('t'), Text('x'), Text('t')];
  }

  lemma ScanGreeting()
    ensures Scan("{{name}}.txt") == [Hole("name")] + [Text('.'), Text('t'), Text('x'), Text('t')]
  {
    GreetingToken();
    GreetingTail();
  }

  lemma FillGreeting()
    ensures Fill([Hole("name")] + [Text('.'), Text('t'), Text('x'), Text('t')], map["name" := "World"]) ==
      Ok("World" + ".txt")
  {
    var values := map["name" := "World"];
    var tail := [Text('.'), Text('t'), Text('x'), Text('t')];
    assert HoleNames(tail) == [];
    assert Render(tail) == ".txt";
    FillHole("name", values);
    FillTextOnly(tail, values);
    FillAppend([Hole("name")], tail, values);
  }

  /** A file named `{{name}}.txt` is renamed after the value of `name`. */
  lemma GreetingFileName()
    ensures Substitute("{{name}}.txt", map["name" := "World"]) == Ok("World.txt")
  {
    ScanGreeting();
    FillGreeting();
    assert "World" + ".txt" == "World.txt";
  }

  /** Replacement is a single pass: a value that looks like a placeholder is
      inserted as it is and not replaced in turn. */
  lemma ValueNotRescanned()
    ensures Substitute("{{a}}", map["a" := "{{b}}", "b" := "x"]) == Ok("{{b}}")
  {
    assert Start + "a" + End == "{{a}}";
    ScanToken("a");
    FillHole("a", map["a" := "{{b}}", "b" := "x"]);
  }

  lemma ScanNested()
    ensures Scan("{{{{a}}}}") == [Text('{'), Text('{'), Hole("a"), Text('}'), Text('}')]
  {
    var s := "{{{{a}}}}";
    assert RunLength(s, 2) == 0 && RunLength(s, 3) == 0;
    assert TokenLength(s, 0) == 0 && TokenLength(s, 1) == 0;
    assert RunLength(s, 4) == 1;
    assert TokenLength(s, 2) == 5;
    assert NameAt(s, 2, 5) == "a";
    assert TokenLength(s, 7) == 0 && TokenLength(s, 8) == 0;
    assert ScanFrom(s, 9) == [];
    assert ScanFrom(s, 7) == [Text('}'), Text('}')];
    assert ScanFrom(s, 2) == [Hole("a"), Text('}'), Text('}')];
  }

  /** Extra braces around a placeholder stay in the text: only the innermost
      `{{a}}` is a match. */
  lemma NestedBraces()
    ensures Names("{{{{a}}}}") == ["a"]
  {
    ScanNested();
    HoleNamesOfScan("{{{{a}}}}");
  }

  /** Parentheses are outside the body class, so `{{f(x)}}` is no
      placeholder and is copied unchanged. */
  lemma ParenthesesBreakToken(values: map<string, string>)
    ensures Substitute("{{f(x)}}", values) == Ok("{{f(x)}}")
  {
    var s := "{{f(x)}}";
    assert RunLength(s, 2) == 1;
    assert TokenLength(s, 0) == 0;
    assert TokenLength(s, 1) == 0;
    assert forall i :: 2 <= i <= |s| ==> TokenLength(s, i) == 0;
    assert NamesFrom(s, 2) == [];
    assert Names(s) == [];
    SubstituteNoNames(s, values);
  }

  lemma FillNested()
    ensures Fill([Text('{'), Text('{'), Hole("a"), Text('}'), Text('}')], map["a" := "b"]) ==
      Ok("{{" + "b" + "}}")
  {
    var values := map["a" := "b"];
    var open := [Text('{'), Text('{')];
    var close := [Text('}'), Text('}')];
    assert HoleNames(open) == [] && Render(open) == "{{";
    assert HoleNames(close) == [] && Render(close) == "}}";
    FillTextOnly(open, values);
    FillTextOnly(close, values);
    FillHole("a", values);
    assert values["a"] == "b";
    FillAppend([Hole("a")], close, values);
    assert Fill([Hole("a")] + close, values) == Ok("b" + "}}");
    FillAppend(open, [Hole("a")] + close, values);
    assert open + ([Hole("a")] + close) == [Text('{'), Text('{'), Hole("a"), Text('}'), Text('}')];
    assert "{{" + ("b" + "}}") == "{{" + "b" + "}}";
  }

  /** Substitution can form a placeholder that was not there: the braces
      around an inner match stay in the text and enclose the value, so
      the output of one pass is not free of placeholders even though the
      value holds no delimiter. */
  lemma ValueFormsPlaceholder()
    ensures Substitute("{{{{a}}}}", map["a" := "b"]) == Ok("{{b}}")
    ensures Names("{{b}}") == ["b"]
  {
    ScanNested();
    FillNested();
    assert "{{" + "b" + "}}" == "{{b}}";
    assert Start + "b" + End == "{{b}}";
    ScanToken("b");
    HoleNamesOfScan("{{b}}");
  }

  /** Entry names are joined to the generation directory as strings: a
      value `../evil` for the name of a file gives a path that starts with
      `./generated/` but leads out of it once the file system resolves
      `..`. */
  lemma ValueLeavesGenerationDir()
    ensures Substitute("{{n}}", map["n" := "../evil"]) == Ok("../evil")
    ensures WriteTree(Dir([Entry("../evil", File("x"))])) == [WriteFile("./generated/../evil", "x")]
  {
    assert Start + "n" + End == "{{n}}";
    ScanToken("n");
    FillHole("n", map["n" := "../evil"]);
    var tree := Dir([Entry("../evil", File("x"))]);
    assert WriteAll(GenerationDir, tree, 0) == [];
    assert "./generated" + "/" + "../evil" == "./generated/../evil";
  }
}
