/** The `Key classes and methods:` section of the prompt as a sequence of
    lines: one block per source file that has a class or a method, holding
    its `File:` line, its `Class:` lines and its `Method:` lines. A parser
    reads the lines back. */
module KeyNames {
  import opened Wrappers
  import opened JavaStrings
  import opened Records
  import opened SeqFacts

  const FileLabel := "File: "
  const ClassLabel := "  Class: "
  const MethodLabel := "  Method: "

  /** A file gets a block in the prompt only if it has a class or a method. */
  predicate HasKeyNames(f: FileInfo) {
    f.classes != [] || f.methods != []
  }

  /** One `tag + name + "\n"` line per name, in order. */
  function Labelled(tag: string, names: seq<string>): (r: seq<string>)
    ensures |r| == |names|
    ensures forall k :: 0 <= k < |r| ==> r[k] == tag + names[k] + "\n"
  {
    if |names| == 0 then [] else [tag + names[0] + "\n"] + Labelled(tag, names[1..])
  }

  /** The lines one file contributes: its `File:` line, its `Class:` lines,
      then its `Method:` lines; nothing for a file with neither. */
  function FileBlock(f: FileInfo): seq<string> {
    if HasKeyNames(f) then
      [FileLabel + f.fileName + "\n"] + Labelled(ClassLabel, f.classes) + Labelled(MethodLabel, f.methods)
    else []
  }

  /** The lines under `Key classes and methods:`, file by file in order. */
  function KeyLines(files: seq<FileInfo>): seq<string> {
    if |files| == 0 then [] else FileBlock(files[0]) + KeyLines(files[1..])
  }

  /** The text between `tag` and a final newline, if `line` has that
      shape. */
  function Unlabel(tag: string, line: string): (r: Option<string>)
    ensures r.Some? ==> line == tag + r.value + "\n"
  {
    if tag <= line && |line| > |tag| && line[|line| - 1] == '\n' then
      Some(line[|tag|..|line| - 1])
    else None
  }

  lemma UnlabelLabelled(tag: string, name: string)
    ensures Unlabel(tag, tag + name + "\n") == Some(name)
  {
    var line := tag + name + "\n";
    assert line[..|tag|] == tag;
    assert line[|tag|..|line| - 1] == name;
  }

  /** A line starting with one tag is not read under a tag that differs
      from it at position `i`. */
  lemma OtherLabel(tag: string, other: string, line: string, i: nat)
    requires other <= line && i < |tag| && i < |other| && tag[i] != other[i]
    ensures Unlabel(tag, line).None?
  {
    assert line[i] == other[i];
  }

  /** Reads consecutive `tag` lines; returns their names and the lines
      after them. */
  function ParseNames(tag: string, lines: seq<string>): (r: (seq<string>, seq<string>))
    ensures Labelled(tag, r.0) + r.1 == lines
    ensures r.1 == [] || Unlabel(tag, r.1[0]).None?
    decreases |lines|
  {
    if |lines| > 0 && Unlabel(tag, lines[0]).Some? then
      var more := ParseNames(tag, lines[1..]);
      var name := Unlabel(tag, lines[0]).value;
      Uncons(lines);
      ConsTail(name, more.0);
      Assoc([lines[0]], Labelled(tag, more.0), more.1);
      ([name] + more.0, more.1)
    else ([], lines)
  }

  lemma {:induction false} ParseLabelled(tag: string, names: seq<string>, rest: seq<string>)
    requires rest == [] || Unlabel(tag, rest[0]).None?
    ensures ParseNames(tag, Labelled(tag, names) + rest) == (names, rest)
    decreases |names|
  {
    if |names| > 0 {
      var line := tag + names[0] + "\n";
      UnlabelLabelled(tag, names[0]);
      HeadTail(line, Labelled(tag, names[1..]), rest);
      ParseLabelled(tag, names[1..], rest);
      Uncons(names);
    } else {
      EmptyLeft(rest);
    }
  }

  /** What the prompt says about one file. */
  datatype Summary = Summary(fileName: string, classes: seq<string>, methods: seq<string>)

  /** The files the prompt mentions, in order, with their names. */
  function Summarise(files: seq<FileInfo>): seq<Summary> {
    if |files| == 0 then []
    else if HasKeyNames(files[0]) then
      [Summary(files[0].fileName, files[0].classes, files[0].methods)] + Summarise(files[1..])
    else Summarise(files[1..])
  }

  /** Reads the key-names lines back: each block is a `File:` line, then
      `Class:` lines, then `Method:` lines, with at least one of the two. */
  function ParseKeyLines(lines: seq<string>): Option<seq<Summary>>
    decreases |lines|
  {
    if |lines| == 0 then Some([])
    else
      var name := Unlabel(FileLabel, lines[0]);
      if name.None? then None
      else
        var classes := ParseNames(ClassLabel, lines[1..]);
        var methods := ParseNames(MethodLabel, classes.1);
        if classes.0 == [] && methods.0 == [] then None
        else
          var tail := ParseKeyLines(methods.1);
          if tail.None? then None
          else Some([Summary(name.value, classes.0, methods.0)] + tail.value)
  }

  /** The key-names lines start with a `File:` line, if there are any. */
  lemma {:induction false} KeyLinesStartWithFile(files: seq<FileInfo>)
    ensures KeyLines(files) == [] || FileLabel <= KeyLines(files)[0]
    decreases |files|
  {
    if |files| > 0 && !HasKeyNames(files[0]) {
      KeyLinesStartWithFile(files[1..]);
    }
  }

  /** Inside one file's block the `Class:` lines are read up to the first
      `Method:` line, and the `Method:` lines up to the next `File:` line. */
  lemma BlockNamesRoundTrip(f: FileInfo, later: seq<string>)
    requires later == [] || FileLabel <= later[0]
    ensures ParseNames(MethodLabel, Labelled(MethodLabel, f.methods) + later) == (f.methods, later)
    ensures ParseNames(ClassLabel, Labelled(ClassLabel, f.classes) + (Labelled(MethodLabel, f.methods) + later))
              == (f.classes, Labelled(MethodLabel, f.methods) + later)
  {
    var methodLines := Labelled(MethodLabel, f.methods);
    if later != [] {
      OtherLabel(MethodLabel, FileLabel, later[0], 0);
    }
    ParseLabelled(MethodLabel, f.methods, later);
    if methodLines != [] {
      assert (methodLines + later)[0] == MethodLabel + f.methods[0] + "\n";
      OtherLabel(ClassLabel, MethodLabel, (methodLines + later)[0], 2);
    } else if later != [] {
      assert (methodLines + later)[0] == later[0];
      OtherLabel(ClassLabel, FileLabel, later[0], 0);
    }
    ParseLabelled(ClassLabel, f.classes, methodLines + later);
  }

  /** One file's block, read back in front of lines that start with a
      `File:` line (or of no lines), gives that file's summary. */
  lemma BlockRoundTrip(f: FileInfo, later: seq<string>)
    requires HasKeyNames(f)
    requires later == [] || FileLabel <= later[0]
    ensures ParseKeyLines(FileBlock(f) + later) ==
              if ParseKeyLines(later).None? then None
              else Some([Summary(f.fileName, f.classes, f.methods)] + ParseKeyLines(later).value)
  {
    var classLines := Labelled(ClassLabel, f.classes);
    var methodLines := Labelled(MethodLabel, f.methods);
    var fileLine := FileLabel + f.fileName + "\n";
    Assoc([fileLine], classLines, methodLines);
    Assoc([fileLine], classLines + methodLines, later);
    HeadTail(fileLine, classLines + methodLines, later);
    Assoc(classLines, methodLines, later);
    UnlabelLabelled(FileLabel, f.fileName);
    BlockNamesRoundTrip(f, later);
  }

  /** The key-names section is exactly the files that have a class or a
      method, in order, each with all its class names before all its method
      names: reading the lines back recovers them. */
  lemma {:induction false} KeyLinesRoundTrip(files: seq<FileInfo>)
    ensures ParseKeyLines(KeyLines(files)) == Some(Summarise(files))
    decreases |files|
  {
    if |files| > 0 {
      KeyLinesRoundTrip(files[1..]);
      if HasKeyNames(files[0]) {
        KeyLinesStartWithFile(files[1..]);
        BlockRoundTrip(files[0], KeyLines(files[1..]));
      } else {
        EmptyLeft(KeyLines(files[1..]));
      }
    }
  }

  /** Key-names lines of two runs of files are those of the first followed
      by those of the second: files keep their order. */
  lemma {:induction false} KeyLinesAppend(a: seq<FileInfo>, b: seq<FileInfo>)
    ensures KeyLines(a + b) == KeyLines(a) + KeyLines(b)
    decreases |a|
  {
    if |a| == 0 {
      EmptyLeft(b);
      EmptyLeft(KeyLines(b));
    } else {
      Uncons(a);
      HeadTail(a[0], a[1..], b);
      KeyLinesAppend(a[1..], b);
      Assoc(FileBlock(a[0]), KeyLines(a[1..]), KeyLines(b));
    }
  }

  /** A file with neither classes nor methods leaves the prompt's key-names
      section unchanged wherever it appears. */
  lemma FileWithoutNamesAddsNothing(a: seq<FileInfo>, f: FileInfo, b: seq<FileInfo>)
    requires !HasKeyNames(f)
    ensures KeyLines(a + [f] + b) == KeyLines(a + b)
  {
    KeyLinesAppend(a + [f], b);
    KeyLinesAppend(a, [f]);
    KeyLinesAppend(a, b);
    ConsTail(f, []);
    EmptyRight([f]);
    EmptyRight(KeyLines(a));
  }

  /** The concatenation of lines contains each of them. */
  lemma ConcatHasLine(lines: seq<string>, k: nat)
    requires k < |lines|
    ensures Concat(lines) == Concat(lines[..k]) + lines[k] + Concat(lines[k + 1..])
  {
    SplitAt(lines, k);
    Assoc(lines[..k], [lines[k]], lines[k + 1..]);
    ConcatAppend(lines[..k], [lines[k]] + lines[k + 1..]);
    ConsTail(lines[k], lines[k + 1..]);
  }

  lemma LabelledOne(tag: string, name: string)
    ensures Labelled(tag, [name]) == [tag + name + "\n"]
  {
    var r := Labelled(tag, [name]);
    assert |r| == 1 && r[0] == tag + name + "\n";
  }

  lemma DemoKeyLines(fileName: string, content: string)
    ensures KeyLines([FileInfo(fileName, content, ["Main"], [])]) == [FileLabel + fileName + "\n", ClassLabel + "Main\n"]
  {
    var f := FileInfo(fileName, content, ["Main"], []);
    var classLine := ClassLabel + "Main\n";
    var fileLine := FileLabel + fileName + "\n";
    LabelledOne(ClassLabel, "Main");
    Assoc(ClassLabel, "Main", "\n");
    assert "Main" + "\n" == "Main\n";
    assert Labelled(MethodLabel, []) == [];
    assert |f.classes| == 1;
    assert HasKeyNames(f);
    assert FileBlock(f) == [fileLine] + [classLine] + [];
    EmptyRight([fileLine] + [classLine]);
    EmptyRight([f]);
    ConsTail(f, []);
    assert [f][1..] == [];
    assert KeyLines([f]) == FileBlock(f) + [];
    EmptyRight(FileBlock(f));
  }
}
