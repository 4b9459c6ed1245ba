/** The line-oriented heuristics that pick class and method names out of a
    source file (`extractFileMetadata`, `extractClassName`,
    `extractMethodName`). Nothing is parsed: each line is trimmed and matched
    with prefix and substring checks, and names are read off its
    whitespace-separated tokens. */
module Metadata {
  import opened Wrappers
  import opened JavaStrings
  import opened SeqFacts

  /** The two ways `extractClassName` indexes past the end of an array and
      throws, which aborts the analysis of the whole upload. */
  datatype Crash =
    | NoTokenAfterClass(line: string)     // `class` is the line's last token
    | ClassTokenAllBraces(line: string)   // the next token is only `{`s, so `split("\\{")` is empty

  /** Class and method names found in a file, in line-scan order. */
  datatype Names = Names(classes: seq<string>, methods: seq<string>)

  const NoNames := Names([], [])

  /** Position of the first occurrence of `x` in `xs`. */
  function Find(xs: seq<string>, x: string): (r: Option<nat>)
    ensures r.None? <==> x !in xs
    ensures r.Some? ==> r.value < |xs| && xs[r.value] == x && x !in xs[..r.value]
  {
    if |xs| == 0 then None
    else if xs[0] == x then Some(0)
    else
      var r := Find(xs[1..], x);
      assert xs == [xs[0]] + xs[1..];
      if r.None? then None
      else
        assert xs[..r.value + 1] == [xs[0]] + xs[1..][..r.value];
        Some(r.value + 1)
  }

  /** Token `i` is the first `class` token of the line. */
  predicate FirstClassAt(tokens: seq<string>, i: int) {
    0 <= i < |tokens| && tokens[i] == "class" && "class" !in tokens[..i]
  }

  lemma FirstClassUnique(tokens: seq<string>, i: int, j: int)
    requires FirstClassAt(tokens, i) && FirstClassAt(tokens, j)
    ensures i == j
  {
    assert forall k :: 0 <= k < j ==> tokens[..j][k] == tokens[k];
    assert forall k :: 0 <= k < i ==> tokens[..i][k] == tokens[k];
  }

  /** A token made only of `{` characters. */
  predicate AllBraces(t: string) {
    |t| > 0 && forall k :: 0 <= k < |t| ==> t[k] == '{'
  }

  /** `token.split("\\{")[0].trim()`: absent exactly when the split array
      is empty, which happens for a token made only of `{`s. */
  function CutAtBrace(token: string): (r: Option<string>)
    ensures r.None? <==> AllBraces(token)
    ensures r.Some? ==> r.value == Trim(Before(token, '{'))
    ensures r.Some? ==> '{' !in r.value
    ensures r.Some? && NoWs(token) ==> NoWs(r.value)
  {
    var pieces := Split(token, '{');
    SplitEmptyIff(token, '{');
    SplitFirst(token, '{');
    if |pieces| == 0 then None
    else
      TrimInside(Before(token, '{'), token);
      Some(Trim(pieces[0]))
  }

  /** `extractClassName` on a trimmed line: the token after the first
      `class` token, cut at its first `{` and trimmed. The line may have no
      `class` token at all (no name), or the access `parts[i + 1]` or
      `split("\\{")[0]` may fall off the end of its array (a crash). */
  function ClassName(line: string): (r: Result<Option<string>, Crash>)
    ensures r == Success(None) <==> "class" !in SplitWs(line)
    ensures r.Failure? <==> (exists i :: FirstClassAt(SplitWs(line), i) &&
                               (i == |SplitWs(line)| - 1 || AllBraces(SplitWs(line)[i + 1])))
    ensures r.Success? && r.value.Some? ==>
              (exists i :: FirstClassAt(SplitWs(line), i) && i + 1 < |SplitWs(line)| &&
                           r.value.value == Trim(Before(SplitWs(line)[i + 1], '{')))
    ensures r.Success? && r.value.Some? ==> NoWs(r.value.value) && '{' !in r.value.value
  {
    var parts := SplitWs(line);
    match Find(parts, "class")
    case None => Success(None)
    case Some(i) =>
      assert FirstClassAt(parts, i);
      assert forall j :: FirstClassAt(parts, j) ==> j == i by {
        forall j | FirstClassAt(parts, j) ensures j == i {
          FirstClassUnique(parts, i, j);
        }
      }
      if i + 1 >= |parts| then Failure(NoTokenAfterClass(line))
      else
        var name := CutAtBrace(parts[i + 1]);
        if name.None? then Failure(ClassTokenAllBraces(line)) else Success(name)
  }

  /** `extractMethodName`, called only on lines that contain `(`: the last
      whitespace-separated token before the first `(`, provided there are
      more than two such tokens. */
  function MethodName(line: string): (r: Option<string>)
    requires '(' in line
    ensures r.Some? <==> |SplitWs(Before(line, '('))| > 2
    ensures r.Some? ==> r.value in SplitWs(Before(line, '('))
    ensures r.Some? ==> r.value != "" && NoWs(r.value) && '(' !in r.value
  {
    BeforeIsIndexOf(line, '(');
    var beforeParen := line[..IndexOf(line, '(')];
    var parts := SplitWs(beforeParen);
    if |parts| > 2 then
      var name := parts[|parts| - 1];
      assert forall k :: 0 <= k < |name| ==> name[k] in beforeParen;
      assert '(' !in beforeParen;
      Some(name)
    else None
  }

  /** A method name is the last token before the first `(`. */
  lemma MethodNameValue(line: string)
    requires '(' in line && MethodName(line).Some?
    ensures var parts := SplitWs(Before(line, '('));
      MethodName(line).value == parts[|parts| - 1]
  {
    BeforeIsIndexOf(line, '(');
  }

  /** The method name is the last word before the first `(`: whitespace
      comes right before it and nothing but whitespace after it. */
  lemma MethodNameIsLastToken(line: string)
    requires '(' in line
    ensures MethodName(line).Some? ==>
      exists p, q :: Before(line, '(') == p + MethodName(line).value + q && |p| > 0 && IsWs(p[|p| - 1]) && AllWs(q)
  {
    if MethodName(line).Some? {
      MethodNameValue(line);
      SplitWsLastToken(Before(line, '('));
    }
  }

  function OptionToSeq(o: Option<string>): seq<string> {
    if o.Some? then [o.value] else []
  }

  /** What every scan result satisfies: class names hold no whitespace and
      no `{`; method names are non-empty and hold no whitespace and no `(`. */
  predicate WellFormed(names: Names) {
    && (forall k :: 0 <= k < |names.classes| ==> NoWs(names.classes[k]) && '{' !in names.classes[k])
    && (forall k :: 0 <= k < |names.methods| ==>
          names.methods[k] != "" && NoWs(names.methods[k]) && '(' !in names.methods[k])
  }

  /** A line `extractFileMetadata` treats as a method candidate: it contains
      `public`, `(` and `)`. A one-character `contains` is membership of that
      character (`ContainsChar`). */
  predicate MethodCandidate(line: string) {
    Contains(line, "public") && '(' in line && ')' in line
  }

  /** The class-name half of one loop iteration: only a line starting with
      `public class` is looked at, and it may crash. */
  function ClassPart(line: string): (r: Result<seq<string>, Crash>)
    ensures r.Failure? ==> StartsWith(line, "public class")
    ensures r.Success? ==> |r.value| <= 1
    ensures r.Success? ==> forall k :: 0 <= k < |r.value| ==> NoWs(r.value[k]) && '{' !in r.value[k]
    ensures r.Success? && r.value != [] ==> StartsWith(line, "public class")
  {
    if StartsWith(line, "public class") then
      var className := ClassName(line);
      if className.Failure? then Failure(className.error) else Success(OptionToSeq(className.value))
    else Success([])
  }

  /** The method-name half of one loop iteration: only a line containing
      `public`, `(` and `)` is looked at. */
  function MethodPart(line: string): (r: seq<string>)
    ensures |r| <= 1
    ensures forall k :: 0 <= k < |r| ==> r[k] != "" && NoWs(r[k]) && '(' !in r[k]
    ensures r != [] ==> Contains(line, "public") && '(' in line && ')' in line
  {
    if MethodCandidate(line) then OptionToSeq(MethodName(line)) else []
  }

  /** One iteration of the loop in `extractFileMetadata`: the line is
      trimmed; a `public class` line may yield a class name (or crash); a
      line containing `public`, `(` and `)` may yield a method name. */
  function ScanLine(rawLine: string): (r: Result<Names, Crash>)
    ensures r.Failure? ==> StartsWith(Trim(rawLine), "public class")
    ensures r.Success? ==> |r.value.classes| <= 1 && |r.value.methods| <= 1 && WellFormed(r.value)
    ensures r.Success? && r.value.classes != [] ==> StartsWith(Trim(rawLine), "public class")
    ensures r.Success? && r.value.methods != [] ==>
      Contains(Trim(rawLine), "public") && '(' in Trim(rawLine) && ')' in Trim(rawLine)
  {
    var line := Trim(rawLine);
    var classes := ClassPart(line);
    if classes.Failure? then Failure(classes.error)
    else Success(Names(classes.value, MethodPart(line)))
  }

  /** A line crashes exactly when, once trimmed, it starts with
      `public class` and `extractClassName` crashes on it, with that crash.
      This is the per-line composition of the two heuristics; which lines
      crash is characterised by `ClassName` and `CutAtBrace`. */
  lemma ScanLineFailure(rawLine: string)
    ensures ScanLine(rawLine).Failure? <==>
      StartsWith(Trim(rawLine), "public class") && ClassName(Trim(rawLine)).Failure?
    ensures ScanLine(rawLine).Failure? ==> ScanLine(rawLine).error == ClassName(Trim(rawLine)).error
  {
  }

  /** The names a line yields: the class name of a trimmed `public class`
      line, and the method name of a trimmed line containing `public`, `(`
      and `)`, each when the name exists. This is the per-line composition
      of the two heuristics; what the names are is characterised by
      `ClassName`, `CutAtBrace` and `MethodNameIsLastToken`. */
  lemma ScanLineNames(rawLine: string)
    ensures ScanLine(rawLine).Success? ==>
      ScanLine(rawLine).value.classes ==
        (if StartsWith(Trim(rawLine), "public class") then OptionToSeq(ClassName(Trim(rawLine)).value) else [])
    ensures ScanLine(rawLine).Success? ==>
      ScanLine(rawLine).value.methods ==
        (if MethodCandidate(Trim(rawLine)) then OptionToSeq(MethodName(Trim(rawLine))) else [])
  {
  }

  /** The loop of `extractFileMetadata` over already-split lines, with the
      per-line step as a parameter: names are appended in line order and the
      first failing line aborts the scan. */
  function ScanWith(step: string -> Result<Names, Crash>, lines: seq<string>): Result<Names, Crash> {
    if |lines| == 0 then Success(NoNames)
    else
      var head := step(lines[0]);
      if head.Failure? then head
      else
        var tail := ScanWith(step, lines[1..]);
        if tail.Failure? then tail
        else Success(Names(head.value.classes + tail.value.classes, head.value.methods + tail.value.methods))
  }

  /** `extractFileMetadata`: the content split on `"\n"` and scanned line
      by line. */
  function ExtractFileMetadata(content: string): (r: Result<Names, Crash>)
    ensures r.Success? ==> WellFormed(r.value)
    ensures r.Success? ==> |r.value.classes| <= |Split(content, '\n')| && |r.value.methods| <= |Split(content, '\n')|
  {
    ScanWithWellFormed(ScanLine, Split(content, '\n'));
    ScanWith(ScanLine, Split(content, '\n'))
  }

  /** A step that yields at most one class and one method per line, all well
      formed, makes a scan with no more names than lines, all well formed. */
  lemma {:induction false} ScanWithWellFormed(step: string -> Result<Names, Crash>, lines: seq<string>)
    requires forall l :: step(l).Success? ==>
      |step(l).value.classes| <= 1 && |step(l).value.methods| <= 1 && WellFormed(step(l).value)
    ensures ScanWith(step, lines).Success? ==> WellFormed(ScanWith(step, lines).value)
    ensures ScanWith(step, lines).Success? ==>
      |ScanWith(step, lines).value.classes| <= |lines| && |ScanWith(step, lines).value.methods| <= |lines|
    decreases |lines|
  {
    if |lines| > 0 {
      ScanWithWellFormed(step, lines[1..]);
      var head := step(lines[0]);
      var tail := ScanWith(step, lines[1..]);
      if head.Success? && tail.Success? {
        var r := ScanWith(step, lines).value;
        assert forall k :: 0 <= k < |r.classes| ==>
          r.classes[k] == if k < |head.value.classes| then head.value.classes[k] else tail.value.classes[k - |head.value.classes|];
        assert forall k :: 0 <= k < |r.methods| ==>
          r.methods[k] == if k < |head.value.methods| then head.value.methods[k] else tail.value.methods[k - |head.value.methods|];
      }
    }
  }

  /** The scan fails exactly when some line fails, and then with the
      failure of the first such line. */
  lemma {:induction false} ScanWithFailsAtFirstCrash(step: string -> Result<Names, Crash>, lines: seq<string>)
    ensures ScanWith(step, lines).Failure? <==> exists i :: 0 <= i < |lines| && step(lines[i]).Failure?
    ensures ScanWith(step, lines).Failure? ==>
              (exists i :: 0 <= i < |lines| && ScanWith(step, lines) == step(lines[i]) &&
                           (forall k :: 0 <= k < i ==> step(lines[k]).Success?))
    decreases |lines|
  {
    if |lines| > 0 {
      ScanWithFailsAtFirstCrash(step, lines[1..]);
      assert forall i :: 0 < i < |lines| ==> lines[i] == lines[1..][i - 1];
      if step(lines[0]).Success? && ScanWith(step, lines[1..]).Failure? {
        var i :| 0 <= i < |lines[1..]| && ScanWith(step, lines[1..]) == step(lines[1..][i])
          && (forall k :: 0 <= k < i ==> step(lines[1..][k]).Success?);
        assert ScanWith(step, lines) == step(lines[i + 1]);
        assert forall k :: 0 <= k < i + 1 ==> step(lines[k]).Success?;
      }
    }
  }

  /** Names found in `x` followed by names found in `y`; the first failure
      wins. */
  function Combine(x: Result<Names, Crash>, y: Result<Names, Crash>): Result<Names, Crash> {
    if x.Failure? then x
    else if y.Failure? then y
    else Success(Names(x.value.classes + y.value.classes, x.value.methods + y.value.methods))
  }

  /** Scanning `a + b` is scanning `a` then `b`: nothing is merged,
      deduplicated or reordered. */
  lemma {:induction false} ScanWithAppend(step: string -> Result<Names, Crash>, a: seq<string>, b: seq<string>)
    ensures ScanWith(step, a + b) == Combine(ScanWith(step, a), ScanWith(step, b))
    decreases |a|
  {
    if |a| == 0 {
      EmptyLeft(b);
      var y := ScanWith(step, b);
      if y.Success? {
        EmptyLeft(y.value.classes);
        EmptyLeft(y.value.methods);
      }
    } else {
      Uncons(a);
      HeadTail(a[0], a[1..], b);
      ScanWithAppend(step, a[1..], b);
      var head := step(a[0]);
      var x := ScanWith(step, a[1..]);
      var y := ScanWith(step, b);
      if head.Success? && x.Success? && y.Success? {
        Assoc(head.value.classes, x.value.classes, y.value.classes);
        Assoc(head.value.methods, x.value.methods, y.value.methods);
      }
    }
  }

  lemma {:induction false} ScanWithIgnoresTrailingBlankLines(step: string -> Result<Names, Crash>, lines: seq<string>)
    requires step("") == Success(NoNames)
    ensures ScanWith(step, DropTrailingEmpty(lines)) == ScanWith(step, lines)
    decreases |lines|
  {
    if |lines| > 0 && lines[|lines| - 1] == "" {
      var init := lines[..|lines| - 1];
      ScanWithIgnoresTrailingBlankLines(step, init);
      SnocInit(lines);
      ScanWithAppend(step, init, [""]);
      ConsTail("", []);
      var none: seq<string> := [];
      EmptyLeft(none);
      assert ScanWith(step, [""]) == Success(NoNames);
      assert DropTrailingEmpty(lines) == DropTrailingEmpty(init);
      var x := ScanWith(step, init);
      if x.Success? {
        EmptyRight(x.value.classes);
        EmptyRight(x.value.methods);
      }
    }
  }

  /** A blank line contributes nothing. */
  lemma EmptyLineScansToNothing()
    ensures ScanLine("") == Success(NoNames)
  {
    assert Trim("") == "";
    ContainsIffOccurs("", "public");
  }

  /** A file's analysis fails exactly when one of its lines crashes, with
      the crash of the first such line. */
  lemma MetadataFailsAtFirstCrash(content: string)
    ensures ExtractFileMetadata(content).Failure? <==>
      exists i :: 0 <= i < |Split(content, '\n')| && ScanLine(Split(content, '\n')[i]).Failure?
    ensures ExtractFileMetadata(content).Failure? ==>
              (exists i :: 0 <= i < |Split(content, '\n')| &&
                           ExtractFileMetadata(content) == ScanLine(Split(content, '\n')[i]) &&
                           (forall k :: 0 <= k < i ==> ScanLine(Split(content, '\n')[k]).Success?))
  {
    ScanWithFailsAtFirstCrash(ScanLine, Split(content, '\n'));
  }

  /** Java's dropping of trailing empty lines makes no difference to the
      names found: the metadata is the scan of every raw line. */
  lemma MetadataScansRawLines(content: string)
    ensures ExtractFileMetadata(content) == ScanWith(ScanLine, RawSplit(content, '\n'))
  {
    EmptyLineScansToNothing();
    if '\n' in content {
      ScanWithIgnoresTrailingBlankLines(ScanLine, RawSplit(content, '\n'));
    } else {
      RawSplitNoSeparator(content, '\n');
    }
  }

  /** The names of two pieces of text joined by a newline are the names of
      the first followed by the names of the second. */
  lemma MetadataOfJoinedContent(a: string, b: string)
    ensures ExtractFileMetadata(a + "\n" + b) == Combine(ExtractFileMetadata(a), ExtractFileMetadata(b))
  {
    MetadataScansRawLines(a + "\n" + b);
    MetadataScansRawLines(a);
    MetadataScansRawLines(b);
    RawSplitAppend(a, b, '\n');
    ScanWithAppend(ScanLine, RawSplit(a, '\n'), RawSplit(b, '\n'));
  }

  /** Non-empty words free of whitespace and of `(`. */
  predicate HeadWords(words: seq<string>) {
    |words| >= 1 && forall k :: 0 <= k < |words| ==> words[k] != "" && NoWs(words[k]) && '(' !in words[k]
  }

  /** `extractMethodName` on a line made of single-space-separated words
      followed by `(`: the last word when there are more than two, nothing
      otherwise. */
  lemma MethodNameIsLastWord(words: seq<string>, rest: string)
    requires HeadWords(words)
    ensures MethodName(Join(' ', words) + "(" + rest) ==
              if |words| > 2 then Some(words[|words| - 1]) else None
  {
    JoinAvoids(' ', words, '(');
    BeforeFirstSeparator(Join(' ', words), rest, '(');
    SplitWsJoinedWords(words);
    BeforeIsIndexOf(Join(' ', words) + "(" + rest, '(');
  }

  lemma RunWords()
    ensures Join(' ', ["public", "void", "run"]) == "public void run"
    ensures "public void run()" == "public void run" + "(" + ")"
  {
    assert Join(' ', ["void", "run"]) == "void run" by {
      assert ["void", "run"][1..] == ["run"];
    }
    assert ["public", "void", "run"][1..] == ["void", "run"];
  }

  lemma RunWordsPlain()
    ensures HeadWords(["public", "void", "run"])
  {
  }

  /** `"public void run()"` has three tokens before `(`, so it yields the
      method name `run`. */
  lemma RunMethodExample(line: string)
    requires line == "public void run()"
    ensures MethodName(line) == Some("run")
  {
    RunWords();
    RunWordsPlain();
    MethodNameIsLastWord(["public", "void", "run"], ")");
  }

  lemma ConstructorWords()
    ensures Join(' ', ["public", "Foo"]) == "public Foo"
    ensures "public Foo()" == "public Foo" + "(" + ")"
    ensures HeadWords(["public", "Foo"])
  {
    assert ["public", "Foo"][1..] == ["Foo"];
  }

  /** A constructor such as `"public Foo()"` has only two tokens before `(`
      and yields no method name. */
  lemma ConstructorExample(line: string)
    requires line == "public Foo()"
    ensures MethodName(line) == None
  {
    ConstructorWords();
    MethodNameIsLastWord(["public", "Foo"], ")");
  }

  /** The class-name step once the first `class` token is known to be at `i`. */
  lemma ClassNameAt(line: string, i: nat)
    requires FirstClassAt(SplitWs(line), i)
    ensures i + 1 == |SplitWs(line)| ==> ClassName(line) == Failure(NoTokenAfterClass(line))
    ensures i + 1 < |SplitWs(line)| && AllBraces(SplitWs(line)[i + 1]) ==>
              ClassName(line) == Failure(ClassTokenAllBraces(line))
    ensures i + 1 < |SplitWs(line)| && !AllBraces(SplitWs(line)[i + 1]) ==>
              ClassName(line) == Success(CutAtBrace(SplitWs(line)[i + 1]))
  {
    FirstClassUnique(SplitWs(line), i, Find(SplitWs(line), "class").value);
  }

  /** A name with no character up to U+0020, no `{` and no `(`. */
  predicate PlainWord(t: string) {
    t != "" && forall k :: 0 <= k < |t| ==> t[k] > ' ' && t[k] != '{' && t[k] != '('
  }

  lemma ClassLineWords(name: string)
    requires PlainWord(name)
    ensures SplitWs("public class " + name + " {") == ["public", "class", name, "{"]
  {
    var words := ["public", "class", name, "{"];
    assert Join(' ', [name, "{"]) == name + " {" by {
      assert [name, "{"][1..] == ["{"];
    }
    assert Join(' ', ["class", name, "{"]) == "class " + name + " {" by {
      assert ["class", name, "{"][1..] == [name, "{"];
    }
    assert Join(' ', words) == "public class " + name + " {" by {
      assert words[1..] == ["class", name, "{"];
    }
    SplitWsJoinedWords(words);
  }

  lemma ClassLineShape(name: string)
    requires PlainWord(name)
    ensures Trim("public class " + name + " {") == "public class " + name + " {"
    ensures StartsWith("public class " + name + " {", "public class")
    ensures !MethodCandidate("public class " + name + " {")
  {
    var line := "public class " + name + " {";
    assert line[|line| - 1] == '{';
    assert '(' !in line;
    ContainsChar(line, '(');
  }

  /** A plain word is its own class name. */
  lemma PlainWordCut(name: string)
    requires PlainWord(name)
    ensures !AllBraces(name) && CutAtBrace(name) == Some(name)
  {
    assert name[0] != '{';
    assert '{' !in name;
    assert Split(name, '{') == [name];
    assert Before(name, '{') == name;
    assert !IsTrimmable(name[0]) && !IsTrimmable(name[|name| - 1]);
  }

  /** The second token is the first `class` token. */
  lemma SecondIsClass(words: seq<string>)
    requires |words| >= 2 && words[0] != "class" && words[1] == "class"
    ensures FirstClassAt(words, 1)
  {
    assert words[..1] == [words[0]];
  }

  lemma ClassLineName(name: string)
    requires PlainWord(name)
    ensures ClassName("public class " + name + " {") == Success(Some(name))
  {
    var line := "public class " + name + " {";
    var words := SplitWs(line);
    ClassLineWords(name);
    assert words[0] == "public" && words[1] == "class" && words[2] == name && |words| == 4;
    SecondIsClass(words);
    PlainWordCut(name);
    ClassNameAt(line, 1);
  }

  /** `"public class " + name + " {"` yields the class `name` and no
      method, e.g. `"public class Foo {"` yields `Foo`. */
  lemma ClassDeclarationYieldsName(name: string)
    requires PlainWord(name)
    ensures ScanLine("public class " + name + " {") == Success(Names([name], []))
  {
    ClassLineName(name);
    ClassLineShape(name);
  }

  lemma BareClassWords()
    ensures SplitWs("public class") == ["public", "class"]
  {
    assert Join(' ', ["public", "class"]) == "public class" by {
      assert ["public", "class"][1..] == ["class"];
    }
    SplitWsJoinedWords(["public", "class"]);
  }

  lemma BareClassShape()
    ensures Trim("public class") == "public class"
    ensures StartsWith("public class", "public class")
  {
  }

  lemma BareClassName()
    ensures ClassName("public class") == Failure(NoTokenAfterClass("public class"))
  {
    var words := SplitWs("public class");
    BareClassWords();
    assert words[0] == "public" && words[1] == "class" && |words| == 2;
    SecondIsClass(words);
    ClassNameAt("public class", 1);
  }

  /** A line that trims to a bare `"public class"`, however indented, has
      no token after `class`: the analysis crashes. */
  lemma MissingClassNameCrashes(line: string)
    requires Trim(line) == "public class"
    ensures ScanLine(line) == Failure(NoTokenAfterClass("public class"))
  {
    BareClassShape();
    BareClassName();
  }

  lemma BraceClassWords()
    ensures SplitWs("public class {") == ["public", "class", "{"]
  {
    assert Join(' ', ["class", "{"]) == "class {" by {
      assert ["class", "{"][1..] == ["{"];
    }
    assert Join(' ', ["public", "class", "{"]) == "public class {" by {
      assert ["public", "class", "{"][1..] == ["class", "{"];
    }
    SplitWsJoinedWords(["public", "class", "{"]);
  }

  lemma BraceClassShape()
    ensures Trim("public class {") == "public class {"
    ensures StartsWith("public class {", "public class")
  {
  }

  /** A line whose tokens are `public`, `class` and a run of braces. */
  lemma BraceTokensCrash(line: string)
    requires SplitWs(line) == ["public", "class", "{"]
    ensures ClassName(line) == Failure(ClassTokenAllBraces(line))
  {
    var words := SplitWs(line);
    assert words[0] == "public" && words[1] == "class" && |words| == 3;
    assert AllBraces(words[2]);
    SecondIsClass(words);
    ClassNameAt(line, 1);
  }

  lemma BraceClassName()
    ensures ClassName("public class {") == Failure(ClassTokenAllBraces("public class {"))
  {
    BraceClassWords();
    BraceTokensCrash("public class {");
  }

  /** In a line that trims to `"public class {"` the token after `class` is
      only a brace, whose split is empty: the analysis crashes. */
  lemma BraceOnlyClassNameCrashes(line: string)
    requires Trim(line) == "public class {"
    ensures ScanLine(line) == Failure(ClassTokenAllBraces("public class {"))
  {
    BraceClassShape();
    BraceClassName();
  }

  lemma GluedWords(suffix: string)
    requires PlainWord(suffix)
    ensures SplitWs("public class" + suffix) == ["public", "class" + suffix]
  {
    assert Join(' ', ["public", "class" + suffix]) == "public class" + suffix by {
      assert ["public", "class" + suffix][1..] == ["class" + suffix];
    }
    SplitWsJoinedWords(["public", "class" + suffix]);
  }

  lemma GluedShape(suffix: string)
    requires PlainWord(suffix)
    ensures Trim("public class" + suffix) == "public class" + suffix
    ensures StartsWith("public class" + suffix, "public class")
    ensures !MethodCandidate("public class" + suffix)
  {
    var line := "public class" + suffix;
    assert line[|line| - 1] == suffix[|suffix| - 1];
    assert '(' !in line;
    ContainsChar(line, '(');
  }

  /** A token that merely starts with `class`, as in `"public classFoo"`,
      passes the `public class` prefix test but is not the `class` keyword:
      the line yields nothing. */
  lemma GluedClassKeywordYieldsNothing(suffix: string)
    requires PlainWord(suffix)
    ensures ScanLine("public class" + suffix) == Success(NoNames)
  {
    GluedWords(suffix);
    GluedShape(suffix);
    assert "class" + suffix != "class";
    assert "class" !in ["public", "class" + suffix];
  }

  lemma MainWordsPlain()
    ensures HeadWords(["public", "static", "void", "main"])
  {
  }

  /** Four words joined by single spaces. */
  lemma JoinFour(a: string, b: string, c: string, d: string)
    ensures Join(' ', [a, b, c, d]) == a + " " + (b + " " + (c + " " + d))
  {
    assert Join(' ', [c, d]) == c + " " + d by {
      assert [c, d][1..] == [d];
    }
    assert Join(' ', [b, c, d]) == b + " " + (c + " " + d) by {
      assert [b, c, d][1..] == [c, d];
    }
    assert [a, b, c, d][1..] == [b, c, d];
  }

  lemma MainWords()
    ensures Join(' ', ["public", "static", "void", "main"]) == "public static void main"
  {
    JoinFour("public", "static", "void", "main");
    assert "void" + " " + "main" == "void main";
    assert "static" + " " + "void main" == "static void main";
    assert "public" + " " + "static void main" == "public static void main";
  }

  lemma MainShape()
    ensures "public static void main(String[] args) {" == "public static void main" + "(" + "String[] args) {"
    ensures Trim("public static void main(String[] args) {") == "public static void main(String[] args) {"
    ensures !StartsWith("public static void main(String[] args) {", "public class")
  {
    var line := "public static void main(String[] args) {";
    assert line[7] != "public class"[7];
  }

  /** A line made of `public`, then text holding `(` and `)`, is a method
      candidate. */
  lemma PublicCandidate(tail: string)
    requires '(' in tail && ')' in tail
    ensures MethodCandidate("public" + tail)
  {
    var line := "public" + tail;
    assert line[..6] == "public";
    OccursContains(line, "public", 0);
    ContainsChar(line, '(');
    ContainsChar(line, ')');
  }

  lemma MainCandidate()
    ensures MethodCandidate("public static void main(String[] args) {")
  {
    var tail := " static void main(String[] args) {";
    assert "public static void main(String[] args) {" == "public" + tail;
    assert tail[17] == '(' && tail[31] == ')';
    PublicCandidate(tail);
  }

  /** A line that trims to `"public static void main(String[] args) {"`
      has four tokens before `(` and yields the method name `main`. */
  lemma MainMethodExample(line: string)
    requires Trim(line) == "public static void main(String[] args) {"
    ensures ScanLine(line) == Success(Names([], ["main"]))
  {
    MainWords();
    MainWordsPlain();
    MainShape();
    MainCandidate();
    MethodNameIsLastWord(["public", "static", "void", "main"], "String[] args) {");
  }
}
