/** `buildPrompt`: the text handed to the generation backend. A fixed
    header, the project's name and description, the rendered tree, one
    block of `Class:`/`Method:` lines per source file that has any, and a
    fixed footer. User-supplied text is interpolated verbatim. */
module Prompt {
  import opened Wrappers
  import opened JavaStrings
  import opened Records
  import opened KeyNames
  import opened SeqFacts

  const Header := "Analyse this codebase and generate a comprehensive README.md file. "
    + "Focus on being clear, concise, and helpful for developers.\n\n"
  const NameLabel := "Project name: "
  const DescriptionLabel := "Project description: "
  const StructureLabel := "Project structure (exclude unnecessary items):\n"
  const KeyNamesLabel := "Key classes and methods:\n"
  const Footer := "\nGenerate a README.md that includes:\n"
    + "1. Project Title and Description\n"
    + "2. Technologies Used\n"
    + "3. Project Structure\n"
    + "4. Main Features (based on code analysis)\n"
    + "5. How to Run/Setup\n"
    + "6. API Endpoints (if it's a web application)\n\n"
    + "Make it professional but approachable. Use proper markdown formatting."

  function NameLine(name: string): string {
    NameLabel + name + "\n"
  }

  function DescriptionLine(description: string): string {
    DescriptionLabel + description + "\n"
  }

  /** The head of the prompt: header, name line and description line. */
  function Head(name: string, description: string): string {
    Header + NameLine(name) + DescriptionLine(description)
  }

  /** The structure section and the key-names heading. */
  function StructureSection(structure: string): string {
    StructureLabel + structure + "\n" + KeyNamesLabel
  }

  /** `buildPrompt`: head, structure, the key-names lines, footer. */
  function BuildPrompt(info: ProjectInfo): (r: string)
    ensures StartsWith(r, Head(info.projectName, info.projectDescription))
    ensures EndsWith(r, Footer)
  {
    var head := Head(info.projectName, info.projectDescription);
    var structure := StructureSection(info.projectStructure);
    var keys := Concat(KeyLines(info.files));
    ChainEnds(head, structure, keys, Footer);
    head + structure + keys + Footer
  }

  /** The text after `tag1` up to the next newline, and the text after the
      `tag2` that follows that newline, up to the next one. */
  function ReadTwoLines(tag1: string, tag2: string, p: string): Option<(string, string)> {
    if !(tag1 <= p) then None
    else
      var rest := p[|tag1|..];
      if '\n' !in rest then None
      else
        var first := Before(rest, '\n');
        var afterFirst := rest[|first| + 1..];
        if !(tag2 <= afterFirst) then None
        else
          var rest2 := afterFirst[|tag2|..];
          if '\n' !in rest2 then None
          else Some((first, Before(rest2, '\n')))
  }

  lemma ReadTwoLinesRoundTrip(tag1: string, tag2: string, a: string, b: string, tail: string)
    requires '\n' !in a && '\n' !in b
    ensures ReadTwoLines(tag1, tag2, tag1 + (a + "\n" + (tag2 + (b + "\n" + tail)))) == Some((a, b))
  {
    var z := b + "\n" + tail;
    var y := tag2 + z;
    var x := a + "\n" + y;
    var p := tag1 + x;
    DropPrefix(tag1, x);
    BeforeFirstSeparator(a, y, '\n');
    DropPrefix(a + "\n", y);
    DropPrefix(tag2, z);
    BeforeFirstSeparator(b, tail, '\n');
  }

  /** `ReadTwoLines` on a text that starts with the two tagged lines. */
  lemma ReadTwoLinesInChain(h: string, tag1: string, a: string, tag2: string, b: string, x: string, y: string, z: string)
    requires '\n' !in a && '\n' !in b
    ensures ReadTwoLines(h + tag1, tag2, h + (tag1 + a + "\n") + (tag2 + b + "\n") + x + y + z) == Some((a, b))
  {
    var tail := x + y + z;
    Assoc(h, tag1 + a, "\n");
    Assoc(h, tag1, a);
    Assoc(h + tag1, a, "\n");
    Assoc(tag2 + b, "\n", x);
    Assoc(tag2, b, "\n" + x);
    Assoc(b, "\n", x);
    Assoc(h + tag1 + a + "\n", tag2 + b + "\n", x);
    assert h + (tag1 + a + "\n") + (tag2 + b + "\n") + x + y + z
      == (h + tag1) + (a + "\n" + (tag2 + (b + "\n" + tail)));
    ReadTwoLinesRoundTrip(h + tag1, tag2, a, b, tail);
  }

  /** The name and description read back from a prompt. */
  function ReadHead(p: string): Option<(string, string)> {
    ReadTwoLines(Header + NameLabel, DescriptionLabel, p)
  }

  /** The name and description pass through verbatim: a prompt gives them
      back as long as neither holds a newline. */
  lemma ReadHeadRoundTrip(info: ProjectInfo)
    requires '\n' !in info.projectName && '\n' !in info.projectDescription
    ensures ReadHead(BuildPrompt(info)) == Some((info.projectName, info.projectDescription))
  {
    ReadTwoLinesInChain(Header, NameLabel, info.projectName, DescriptionLabel, info.projectDescription,
      StructureSection(info.projectStructure), Concat(KeyLines(info.files)), Footer);
  }

  /** The prompt holds the name line verbatim. */
  lemma PromptHasName(info: ProjectInfo)
    ensures Contains(BuildPrompt(info), NameLine(info.projectName))
  {
    var head := Head(info.projectName, info.projectDescription);
    ContainsMiddle(Header, NameLine(info.projectName), DescriptionLine(info.projectDescription));
    ContainsInPrefix(BuildPrompt(info), head, NameLine(info.projectName));
  }

  /** Every key-names line appears in the prompt. */
  lemma PromptHasKeyLine(info: ProjectInfo, k: nat)
    requires k < |KeyLines(info.files)|
    ensures Contains(BuildPrompt(info), KeyLines(info.files)[k])
  {
    var lines := KeyLines(info.files);
    ConcatHasLine(lines, k);
    ContainsInside(Head(info.projectName, info.projectDescription) + StructureSection(info.projectStructure),
      Concat(lines[..k]), lines[k], Concat(lines[k + 1..]), Footer);
  }

  /** The prompt holds the tree verbatim, between the structure heading and
      the key-names heading. */
  lemma PromptHasStructure(info: ProjectInfo)
    ensures Contains(BuildPrompt(info), StructureLabel + info.projectStructure + "\n" + KeyNamesLabel)
  {
    var head := Head(info.projectName, info.projectDescription);
    var keys := Concat(KeyLines(info.files));
    Assoc(head + StructureSection(info.projectStructure), keys, Footer);
    ContainsMiddle(head, StructureSection(info.projectStructure), keys + Footer);
  }

  /** What a prompt for `info` carries: the head, the tree section, every
      key-names line and the footer. Between the tree section and the footer
      there is nothing but key-names lines, and they read back as exactly
      the files that have a class or a method, in order, with all their
      names. */
  ghost predicate Carries(p: string, info: ProjectInfo) {
    && StartsWith(p, Head(info.projectName, info.projectDescription))
    && Contains(p, StructureLabel + info.projectStructure + "\n" + KeyNamesLabel)
    && (forall k :: 0 <= k < |KeyLines(info.files)| ==> Contains(p, KeyLines(info.files)[k]))
    && EndsWith(p, Footer)
    && exists lines ::
         && p == Head(info.projectName, info.projectDescription) + StructureSection(info.projectStructure)
                 + Concat(lines) + Footer
         && ParseKeyLines(lines) == Some(Summarise(info.files))
  }

  /** `buildPrompt` carries everything it was given. */
  lemma BuildPromptCarries(info: ProjectInfo)
    ensures Carries(BuildPrompt(info), info)
  {
    PromptHasStructure(info);
    KeyLinesRoundTrip(info.files);
    var lines := KeyLines(info.files);
    assert BuildPrompt(info) == Head(info.projectName, info.projectDescription) + StructureSection(info.projectStructure)
                                + Concat(lines) + Footer;
    forall k | 0 <= k < |KeyLines(info.files)| ensures Contains(BuildPrompt(info), KeyLines(info.files)[k]) {
      PromptHasKeyLine(info, k);
    }
  }

  lemma DemoNameLine()
    ensures NameLine("Demo") == "" + "Project name: Demo" + "\n"
  {
    assert NameLabel + "Demo" == "Project name: Demo";
  }

  lemma DemoClassLine()
    ensures ClassLabel + "Main\n" == "" + "  Class: Main" + "\n"
  {
    assert ClassLabel == "  " + "Class: ";
    assert "Class: " + "Main" == "Class: Main";
    assert "Main" + "\n" == "Main\n";
    Assoc("  ", "Class: ", "Main\n");
    Assoc("Class: ", "Main", "\n");
    Assoc("  ", "Class: Main", "\n");
    assert "  " + "Class: Main" == "  Class: Main";
  }

  /** A project with a single file holding class `Main` and no methods: the
      prompt names the project and lists the class on an indented
      `Class:` line. */
  lemma DemoPrompt(fileName: string, content: string, structure: string)
    ensures KeyLines([FileInfo(fileName, content, ["Main"], [])]) == [FileLabel + fileName + "\n", ClassLabel + "Main\n"]
    ensures Contains(BuildPrompt(ProjectInfo("Demo", "A test", structure, [FileInfo(fileName, content, ["Main"], [])])),
                     "Project name: Demo")
    ensures Contains(BuildPrompt(ProjectInfo("Demo", "A test", structure, [FileInfo(fileName, content, ["Main"], [])])),
                     "  Class: Main")
  {
    var info := ProjectInfo("Demo", "A test", structure, [FileInfo(fileName, content, ["Main"], [])]);
    var p := BuildPrompt(info);
    DemoKeyLines(fileName, content);
    PromptHasName(info);
    DemoNameLine();
    ContainsInfix(p, "", "Project name: Demo", "\n");
    PromptHasKeyLine(info, 1);
    DemoClassLine();
    ContainsInfix(p, "", "  Class: Main", "\n");
  }
}
