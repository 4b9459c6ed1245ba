/** `DocumentationService.analyseProject`, `isCodeFile` and
    `generateReadme`: the uploaded files become a `ProjectInfo` (every
    non-null name feeds the tree, only `.java` files are analysed, in upload
    order), the prompt is built from it and handed to the generation
    backend, which is a parameter here. */
module Service {
  import opened Wrappers
  import opened JavaStrings
  import opened SeqFacts
  import opened Records
  import opened Structure
  import opened Metadata
  import opened KeyNames
  import opened Prompt

  /** One uploaded file: its original name, which may be absent (`null`),
      and its content, already decoded. */
  datatype Upload = Upload(name: Option<string>, content: string)

  const JavaSuffix := ".java"

  /** `isCodeFile`: a name that is present and ends in `.java`. */
  predicate IsCodeFile(name: Option<string>) {
    name.Some? && EndsWith(name.value, JavaSuffix)
  }

  function NameOf(u: Upload): Option<string> {
    u.name
  }

  /** The original names of the uploads, in upload order. */
  function UploadNames(uploads: seq<Upload>): seq<Option<string>> {
    MapSeq(NameOf, uploads)
  }

  /** The uploads `isCodeFile` accepts, in upload order, each as often as
      it was uploaded. */
  function CodeUploads(uploads: seq<Upload>): (r: seq<Upload>)
    ensures |r| <= |uploads|
    ensures forall u :: u in r <==> u in uploads && IsCodeFile(u.name)
    ensures forall u :: multiset(r)[u] == if IsCodeFile(u.name) then multiset(uploads)[u] else 0
  {
    if |uploads| == 0 then []
    else
      var rest := CodeUploads(uploads[1..]);
      Uncons(uploads);
      assert forall u :: u in uploads <==> u == uploads[0] || u in uploads[1..];
      assert multiset(uploads) == multiset{uploads[0]} + multiset(uploads[1..]);
      if IsCodeFile(uploads[0].name) then [uploads[0]] + rest else rest
  }

  /** Filtering two runs of uploads is filtering the first, then the second:
      the kept uploads stay in upload order. */
  lemma {:induction false} CodeUploadsAppend(a: seq<Upload>, b: seq<Upload>)
    ensures CodeUploads(a + b) == CodeUploads(a) + CodeUploads(b)
    decreases |a|
  {
    if |a| == 0 {
      EmptyLeft(b);
    } else {
      assert (a + b)[0] == a[0] && (a + b)[1..] == a[1..] + b;
      CodeUploadsAppend(a[1..], b);
      if IsCodeFile(a[0].name) {
        Assoc([a[0]], CodeUploads(a[1..]), CodeUploads(b));
      }
    }
  }

  /** The record built for one analysed upload whose scan succeeded. */
  predicate Describes(scan: string -> Result<Names, Crash>, f: FileInfo, u: Upload) {
    && u.name == Some(f.fileName)
    && f.content == u.content
    && scan(u.content) == Success(Names(f.classes, f.methods))
  }

  /** Records matching their uploads one to one stay matched when a
      matching pair is put in front. */
  lemma DescribesCons(scan: string -> Result<Names, Crash>, f: FileInfo, u: Upload, files: seq<FileInfo>, uploads: seq<Upload>)
    requires Describes(scan, f, u) && |files| == |uploads|
    requires forall k :: 0 <= k < |files| ==> Describes(scan, files[k], uploads[k])
    ensures forall k :: 0 <= k < |files| + 1 ==> Describes(scan, ([f] + files)[k], ([u] + uploads)[k])
  {
    forall k | 0 < k < |files| + 1 ensures Describes(scan, ([f] + files)[k], ([u] + uploads)[k]) {
      assert ([f] + files)[k] == files[k - 1] && ([u] + uploads)[k] == uploads[k - 1];
    }
  }

  /** The upload at `i` is a code file whose scan crashes. */
  predicate CrashesAt(scan: string -> Result<Names, Crash>, uploads: seq<Upload>, i: int) {
    0 <= i < |uploads| && IsCodeFile(uploads[i].name) && scan(uploads[i].content).Failure?
  }

  /** The loop of `analyseProject`, with the per-file scan as a parameter:
      every upload that `isCodeFile` accepts is scanned, in upload order,
      and recorded with its name, content and names; a failing scan aborts
      the whole analysis. */
  function AnalyseWith(scan: string -> Result<Names, Crash>, uploads: seq<Upload>): Result<seq<FileInfo>, Crash> {
    if |uploads| == 0 then Success([])
    else
      var u := uploads[0];
      var rest := AnalyseWith(scan, uploads[1..]);
      if IsCodeFile(u.name) then
        var m := scan(u.content);
        if m.Failure? then Failure(m.error)
        else if rest.Failure? then rest
        else Success([FileInfo(u.name.value, u.content, m.value.classes, m.value.methods)] + rest.value)
      else rest
  }

  /** A successful analysis holds one record per code file, in upload
      order, each carrying that file's name, content and scanned names. */
  lemma {:induction false} AnalyseWithRecords(scan: string -> Result<Names, Crash>, uploads: seq<Upload>)
    ensures AnalyseWith(scan, uploads).Success? ==>
      |AnalyseWith(scan, uploads).value| == |CodeUploads(uploads)| &&
      forall k :: 0 <= k < |CodeUploads(uploads)| ==>
        Describes(scan, AnalyseWith(scan, uploads).value[k], CodeUploads(uploads)[k])
    decreases |uploads|
  {
    if |uploads| > 0 && AnalyseWith(scan, uploads).Success? {
      AnalyseWithRecords(scan, uploads[1..]);
      var u := uploads[0];
      var r := AnalyseWith(scan, uploads).value;
      var tail := AnalyseWith(scan, uploads[1..]).value;
      var codes := CodeUploads(uploads[1..]);
      if IsCodeFile(u.name) {
        var m := scan(u.content).value;
        var f := FileInfo(u.name.value, u.content, m.classes, m.methods);
        assert r == [f] + tail;
        assert CodeUploads(uploads) == [u] + codes;
        assert Describes(scan, f, u);
        DescribesCons(scan, f, u, tail, codes);
      }
    }
  }

  /** The analysis fails exactly when some code file's scan fails, and then
      with the failure of the first such file. */
  lemma {:induction false} AnalyseWithFailsAtFirstCrash(scan: string -> Result<Names, Crash>, uploads: seq<Upload>)
    ensures AnalyseWith(scan, uploads).Failure? <==> exists i :: CrashesAt(scan, uploads, i)
    ensures AnalyseWith(scan, uploads).Failure? ==>
      exists i :: CrashesAt(scan, uploads, i) && AnalyseWith(scan, uploads).error == scan(uploads[i].content).error &&
                  forall j :: 0 <= j < i ==> !CrashesAt(scan, uploads, j)
    decreases |uploads|
  {
    if |uploads| > 0 {
      AnalyseWithFailsAtFirstCrash(scan, uploads[1..]);
      var tail := uploads[1..];
      forall j | 0 < j < |uploads| ensures CrashesAt(scan, uploads, j) <==> CrashesAt(scan, tail, j - 1) {
        assert uploads[j] == tail[j - 1];
      }
      if CrashesAt(scan, uploads, 0) {
        assert AnalyseWith(scan, uploads).Failure?;
      } else if AnalyseWith(scan, uploads).Failure? {
        var i :| CrashesAt(scan, tail, i) && AnalyseWith(scan, tail).error == scan(tail[i].content).error &&
                 forall j :: 0 <= j < i ==> !CrashesAt(scan, tail, j);
        assert CrashesAt(scan, uploads, i + 1);
      }
    }
  }

  /** `analyseProject`: the tree of all uploaded names, then the analysed
      code files. */
  function AnalyseProject(projectName: string, projectDescription: string, uploads: seq<Upload>): (r: Result<ProjectInfo, Crash>)
    ensures r.Failure? <==> exists i :: CrashesAt(ExtractFileMetadata, uploads, i)
    ensures r.Success? ==>
      && r.value.projectName == projectName
      && r.value.projectDescription == projectDescription
      && r.value.projectStructure == ExtractStructure(UploadNames(uploads))
      && |r.value.files| == |CodeUploads(uploads)|
      && forall k :: 0 <= k < |r.value.files| ==> Describes(ExtractFileMetadata, r.value.files[k], CodeUploads(uploads)[k])
  {
    var structure := ExtractStructure(UploadNames(uploads));
    var files := AnalyseWith(ExtractFileMetadata, uploads);
    AnalyseWithRecords(ExtractFileMetadata, uploads);
    AnalyseWithFailsAtFirstCrash(ExtractFileMetadata, uploads);
    if files.Failure? then Failure(files.error)
    else Success(ProjectInfo(projectName, projectDescription, structure, files.value))
  }

  /** `generateReadme`: the prompt built from the analysis is handed to the
      backend once, and its answer (absent when the backend failed) is
      returned unchanged. The prompt carries the analysed project: its head,
      its tree and the key-names lines of its files. A crashing analysis
      never reaches the backend. */
  function GenerateReadme(projectName: string, projectDescription: string, uploads: seq<Upload>,
                          generate: string -> Option<string>): (r: Result<Option<string>, Crash>)
    ensures r.Failure? <==> exists i :: CrashesAt(ExtractFileMetadata, uploads, i)
    ensures r.Success? ==>
      && AnalyseProject(projectName, projectDescription, uploads).Success?
      && exists prompt :: r.value == generate(prompt) &&
                          Carries(prompt, AnalyseProject(projectName, projectDescription, uploads).value) &&
                          ('\n' !in projectName && '\n' !in projectDescription ==>
                             ReadHead(prompt) == Some((projectName, projectDescription)))
  {
    var info := AnalyseProject(projectName, projectDescription, uploads);
    if info.Failure? then Failure(info.error)
    else
      var prompt := BuildPrompt(info.value);
      BuildPromptCarries(info.value);
      if '\n' !in projectName && '\n' !in projectDescription then
        ReadHeadRoundTrip(info.value);
        Success(generate(prompt))
      else
        Success(generate(prompt))
  }

  /** `isCodeFile` accepts exactly the names of the form `stem + ".java"`. */
  lemma IsCodeFileIff(name: Option<string>)
    ensures IsCodeFile(name) <==> exists stem :: name == Some(stem + JavaSuffix)
  {
    if IsCodeFile(name) {
      var s := name.value;
      var stem := s[..|s| - |JavaSuffix|];
      assert s == stem + JavaSuffix;
    }
    if exists stem :: name == Some(stem + JavaSuffix) {
      var stem :| name == Some(stem + JavaSuffix);
      assert (stem + JavaSuffix)[|stem|..] == JavaSuffix;
    }
  }

  /** Combining the analyses of two consecutive runs of uploads. */
  function Then(x: Result<seq<FileInfo>, Crash>, y: Result<seq<FileInfo>, Crash>): Result<seq<FileInfo>, Crash> {
    if x.Failure? then x else if y.Failure? then y else Success(x.value + y.value)
  }

  /** Analysing `a + b` is analysing `a`, then `b`: records keep upload
      order and the first failure wins. */
  lemma {:induction false} AnalyseWithAppend(scan: string -> Result<Names, Crash>, a: seq<Upload>, b: seq<Upload>)
    ensures AnalyseWith(scan, a + b) == Then(AnalyseWith(scan, a), AnalyseWith(scan, b))
    decreases |a|
  {
    if |a| == 0 {
      EmptyLeft(b);
      var y := AnalyseWith(scan, b);
      if y.Success? {
        EmptyLeft(y.value);
      }
    } else {
      Uncons(a);
      HeadTail(a[0], a[1..], b);
      AnalyseWithAppend(scan, a[1..], b);
      var u := a[0];
      var x := AnalyseWith(scan, a[1..]);
      var y := AnalyseWith(scan, b);
      if IsCodeFile(u.name) && scan(u.content).Success? && x.Success? && y.Success? {
        var m := scan(u.content).value;
        Assoc([FileInfo(u.name.value, u.content, m.classes, m.methods)], x.value, y.value);
      }
    }
  }

  /** An upload `isCodeFile` rejects (a null name, or a name not ending in
      `.java`) adds no record and cannot make the analysis fail. */
  lemma NonCodeUploadIgnored(scan: string -> Result<Names, Crash>, a: seq<Upload>, u: Upload, b: seq<Upload>)
    requires !IsCodeFile(u.name)
    ensures AnalyseWith(scan, a + [u] + b) == AnalyseWith(scan, a + b)
  {
    AnalyseWithAppend(scan, a + [u], b);
    AnalyseWithAppend(scan, a, [u]);
    AnalyseWithAppend(scan, a, b);
    ConsTail(u, []);
    EmptyRight([u]);
    assert AnalyseWith(scan, [u]) == Success([]);
    var x := AnalyseWith(scan, a);
    if x.Success? {
      EmptyRight(x.value);
    }
  }

  /** The tree does not depend on the order in which files were uploaded. */
  lemma StructureIgnoresUploadOrder(projectName: string, projectDescription: string, a: seq<Upload>, b: seq<Upload>)
    requires multiset(a) == multiset(b)
    requires AnalyseProject(projectName, projectDescription, a).Success?
    ensures AnalyseProject(projectName, projectDescription, b).Success?
    ensures AnalyseProject(projectName, projectDescription, a).value.projectStructure
         == AnalyseProject(projectName, projectDescription, b).value.projectStructure
  {
    MapSeqPermutation(NameOf, a, b);
    StructureIgnoresOrderAndNulls(UploadNames(a), UploadNames(b));
    CrashesSurvivePermutation(ExtractFileMetadata, b, a);
  }

  /** Whether some code file crashes does not depend on upload order. */
  lemma CrashesSurvivePermutation(scan: string -> Result<Names, Crash>, a: seq<Upload>, b: seq<Upload>)
    requires multiset(a) == multiset(b)
    ensures (exists i :: CrashesAt(scan, a, i)) ==> exists k :: CrashesAt(scan, b, k)
  {
    if exists i :: CrashesAt(scan, a, i) {
      var i :| CrashesAt(scan, a, i);
      assert a[i] in multiset(b);
      InMultiset(b, a[i]);
      var k :| 0 <= k < |b| && b[k] == a[i];
      assert CrashesAt(scan, b, k);
    }
  }

  /** An upload with a null name changes neither the tree nor the analysed
      files. */
  lemma NullUploadIgnored(projectName: string, projectDescription: string, a: seq<Upload>, content: string, b: seq<Upload>)
    ensures AnalyseProject(projectName, projectDescription, a + [Upload(None, content)] + b)
         == AnalyseProject(projectName, projectDescription, a + b)
  {
    var u := Upload(None, content);
    var with, without := a + [u] + b, a + b;
    assert AnalyseWith(ExtractFileMetadata, with) == AnalyseWith(ExtractFileMetadata, without) by {
      NonCodeUploadIgnored(ExtractFileMetadata, a, u, b);
    }
    assert ExtractStructure(UploadNames(with)) == ExtractStructure(UploadNames(without)) by {
      MapSeqRemove(NameOf, a, u, b);
      StructureIgnoresOrderAndNulls(UploadNames(with), UploadNames(without));
    }
  }

  /** A single upload that is not a source file, such as `"README.md"`,
      appears in the tree as one elbow line but is not analysed. */
  lemma NonCodeFileOnlyInTree(projectName: string, projectDescription: string, name: string, content: string)
    requires name != "" && '/' !in name && !IsCodeFile(Some(name))
    ensures AnalyseProject(projectName, projectDescription, [Upload(Some(name), content)])
         == Success(ProjectInfo(projectName, projectDescription, Fence + "\n" + ElbowGlyph + name + "\n" + Fence, []))
  {
    var u := Upload(Some(name), content);
    MapSeqOne(NameOf, u);
    FlatNameRendersOneLine(name);
    ConsTail(u, []);
    assert AnalyseWith(ExtractFileMetadata, [u]) == AnalyseWith(ExtractFileMetadata, []);
  }
}
