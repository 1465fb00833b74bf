/**
  Concrete lines and documents that exhibit the literal behaviour of the block
  detectors of test/md.js, for any inline rewriter: list text taken from index
  3 (md.js:272), the `//` paragraph case that never claims a line (md.js:337),
  and the title flush that keeps the status (md.js:395-396).
*/
module Scenarios {
  import opened Wrappers
  import opened JsString
  import opened Render
  import opened Blocks

  /** A list item's text starts at index 3: the character after the marker's space is lost. */
  lemma ListItemDropsFirstCharacter(c: Config, s: State)
    ensures ListLine(c, s, "- item").Some?
    ensures ListLine(c, s, "- item").value.current[|ListLine(c, s, "- item").value.current| - 1]
      == ListEntry(Bullet("-", c.rewrite("tem").0))
  {
    assert CharAt("- item", 0) == "-" && CharAt("- item", 1) == " ";
    assert SubstringFrom("- item", 3) == "tem";
  }

  /** The comment case only compares: a `//` line is never a paragraph line. */
  lemma CommentIsNotParagraph(c: Config, s: State)
    ensures ParagraphLine(c, s, "// note").None?
  {
    assert CharAt("// note", 0) == "/";
  }

  /** The list line opens a list holding its one item. */
  lemma ListThenHeadingFirst(c: Config)
    requires c.fence == "==="
    ensures Step(c, Initial(), "- a", "# T")
      == Initial().(status := List, current := [ListEntry(Bullet("-", c.rewrite("").0))], tmp := c.rewrite("").1)
  {
    EmbeddedOpens(c, Initial(), "- a");
    assert !("=== " <= "- a");
    ListClaims(c, Initial(), "- a");
    assert IsListLine("- a");
    assert CharAt("- a", 0) == "-";
    assert SubstringFrom("- a", 3) == "";
  }

  /** No detector before the title detector claims `# T`. */
  lemma HeadingLineReachesTitle(c: Config, s: State)
    requires c.fence == "===" && s.status != Embedded && !s.skip
    ensures Step(c, s, "# T", "") == Heading(c, s, "#", "# T")
  {
    var line := "# T";
    EmbeddedOpens(c, s, line);
    assert !("=== " <= line);
    assert BreakLine(c, s, line).None?;
    ListClaims(c, s, line);
    KeyValueClaims(c, s, line);
    assert ':' !in line;
    ParagraphClaims(c, s, line);
    assert IndexOf(line, ' ') == 1;
    assert Trim(Substring(line, 0, 1)) == "#" by {
      assert Substring(line, 0, 1) == "#";
    }
  }

  /** The heading: the list so far is rendered, the status stays, and the final flush renders an empty list. */
  lemma HeadingAfterList(c: Config, s: State)
    requires c.r == Default()
    requires s.status == List && !s.skip && s.output == ""
    requires s.current == [ListEntry(Bullet("-", c.rewrite("").0))]
    ensures var t := Heading(c, s, "#", "# T");
      t.status == List
      && Flush(c, t).output == DefaultOnList([Bullet("-", c.rewrite("").0)]) + DefaultOnTitle("#", c.rewrite("T").0) + DefaultOnList([])
  {
    assert SubstringFrom("# T", 2) == "T";
    assert Bullets(s.current) == [Bullet("-", c.rewrite("").0)];
    var t := Heading(c, s, "#", "# T");
    assert Bullets(t.current) == [];
  }

  /** The two iterations of `load` over the list line and the heading. */
  lemma ListThenHeadingRun(c: Config, lines: seq<string>)
    requires c.r == Default() && c.fence == "==="
    requires lines == ["- a", "# T"]
    ensures var s1 := Run(c, Initial(), lines, 0, 1);
      && s1.status == List && !s1.skip && s1.output == ""
      && s1.current == [ListEntry(Bullet("-", c.rewrite("").0))]
      && Run(c, Initial(), lines, 0, 2) == Heading(c, s1, "#", "# T")
  {
    RunLast(c, Initial(), lines, 0, 1);
    RunLast(c, Initial(), lines, 0, 2);
    ListThenHeadingFirst(c);
    HeadingLineReachesTitle(c, Run(c, Initial(), lines, 0, 1));
  }

  /**
    A heading flushes the list before it but keeps the list status, so the end
    of `load` renders a second, empty list (`<ul></ul>`).
  */
  lemma HeadingAfterListLeavesEmptyList(c: Config, text: string)
    requires c.r == Default() && c.fence == "==="
    requires text == "- a\n# T"
    ensures Load(c, Initial(), text).output
      == DefaultOnList([Bullet("-", c.rewrite("").0)]) + DefaultOnTitle("#", c.rewrite("T").0) + DefaultOnList([])
  {
    var lines := Split(text, '\n');
    assert lines == ["- a", "# T"] by {
      assert text == "- a" + ['\n'] + "# T";
      SplitStep("- a", '\n', "# T");
      assert '\n' !in "# T";
    }
    ListThenHeadingRun(c, lines);
    HeadingAfterList(c, Run(c, Initial(), lines, 0, 1));
    assert Initial().(output := "") == Initial();
  }
}
