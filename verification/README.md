# writeme documentation service, modelled in Dafny

The writeme service takes a project name, a description and a set of uploaded
files, and produces a README by asking a text-generation backend. This model
covers `DocumentationService`, the class that does the actual work:

- `extractStructure`: renders the uploaded names as a box-drawing tree in a
  fenced block.
- `extractFileMetadata`, `extractClassName`, `extractMethodName`: line-based
  heuristics that pick class and method names out of `.java` sources.
- `isCodeFile`, `analyseProject`: turn the uploads into a `ProjectInfo`
  holding one `FileInfo` per source file.
- `buildPrompt`: the text sent to the backend.
- `generateReadme`: analysis, prompt, backend call.

The model is made of pure functions over immutable values:

- `Wrappers`: `Option` and `Result`.
- `SeqFacts`: generic sequence lemmas and `MapSeq`.
- `JavaStrings`: the `java.lang.String` operations the service uses.
  - `split` is written out for the `"/"`, `"\\{"`, `"\n"` and `"\\s+"`
    patterns, including Java's rule that trailing empty strings are dropped.
  - Also covered: `trim`, `indexOf`, `startsWith`, `endsWith`, `contains` and
    `String.join`.
- `StringOrder`: `compareTo` as a total order, and the ascending sort that
  `Stream.sorted()` applies.
- `Structure`: the tree.
- `Metadata`: the name heuristics.
- `Records`: `ProjectInfo` and `FileInfo`.
- `KeyNames`: the `Key classes and methods:` lines, plus a reader that
  parses them back.
- `Prompt`: `buildPrompt`, plus a reader for the name and description lines.
- `Service`: `isCodeFile`, `analyseProject` and `generateReadme`.

Where a Java operation throws, the model returns a `Failure`. There is one
such case: `extractClassName` reads past the end of an array. This happens
when `class` is the last token of a `public class` line, and when the token
after it is made only of `{` characters (then `split("\\{")` returns an empty
array). The exception escapes `analyseProject`, so the model's analysis
fails as a whole with the first such crash in upload order.

## Model

All source paths are under `src/main/java/com/seanlee/writeme/`; the table writes them in full.

| member | source | states |
|---|---|---|
| JavaStrings.SplitShape | src/main/java/com/seanlee/writeme/DocumentationService.java:77 | Pieces of `split` on one character never contain it. The result is empty exactly when the string is non-empty and made only of the separator. The first piece is the text before the first separator. Every joined prefix of the pieces is a prefix of the input. Trailing empty pieces are dropped: the last piece is non-empty unless the input is empty, and the pieces joined back give the input minus a final run of separators. |
| JavaStrings.TrailingSeparatorDropped | src/main/java/com/seanlee/writeme/DocumentationService.java:77 | A name ending in the separator, such as `dir/`, splits into the single piece before it. |
| JavaStrings.SplitJoinRoundTrip | src/main/java/com/seanlee/writeme/DocumentationService.java:77 | Splitting pieces that were joined with a separator gives them back. The pieces must be free of the separator and the last one non-empty (Java drops trailing empties). |
| JavaStrings.SplitWs | src/main/java/com/seanlee/writeme/DocumentationService.java:120 | `split("\\s+")` yields tokens free of whitespace. Only the first can be empty: when the text starts with whitespace, or when the text is empty. Every token character comes from the input. |
| JavaStrings.SplitWsIsCollapsedSplit | src/main/java/com/seanlee/writeme/DocumentationService.java:131 | Splitting on runs of whitespace equals splitting on single spaces after collapsing each run to one space. |
| JavaStrings.SplitWsLastToken | src/main/java/com/seanlee/writeme/DocumentationService.java:131 | With at least two tokens, the last token follows a whitespace character and only whitespace follows it: it is the last word of the text. |
| JavaStrings.SplitWsJoinedWords | src/main/java/com/seanlee/writeme/DocumentationService.java:120 | Non-empty whitespace-free words joined by single spaces split back into the same words. |
| JavaStrings.Trim | src/main/java/com/seanlee/writeme/DocumentationService.java:101 | `trim` returns a contiguous slice of the input. Everything cut off at either end is at most U+0020, and the result neither starts nor ends with such a character. A string already in that form is unchanged. |
| JavaStrings.Before | src/main/java/com/seanlee/writeme/DocumentationService.java:130 | The text before the first occurrence of a character is a prefix free of that character, ending at the character or at the end of the input. |
| StringOrder.Sort | src/main/java/com/seanlee/writeme/DocumentationService.java:71 | `sorted()` returns an ascending permutation of its input. |
| StringOrder.SortDependsOnlyOnMultiset | src/main/java/com/seanlee/writeme/DocumentationService.java:68-71 | Inputs with the same strings, counted with multiplicity, sort to the same sequence. |
| StringOrder.SortedUnique | src/main/java/com/seanlee/writeme/DocumentationService.java:71 | Two ascending sequences holding the same strings are equal, so the sorted order is unique. |
| Structure.RenderEntry | src/main/java/com/seanlee/writeme/DocumentationService.java:82-88 | A tree line is four spaces per depth level, then the `├── ` or `└── ` glyph, then the segment, then a newline. |
| Structure.ParseRenderEntry | src/main/java/com/seanlee/writeme/DocumentationService.java:82-88 | A rendered tree line reads back as the depth, last-segment flag and segment it was rendered from. |
| Structure.SegmentEntries | src/main/java/com/seanlee/writeme/DocumentationService.java:79-89 | Walking one path gives one line per segment whose joined prefix is not a prefix of the previous path, and only those lines, in increasing depth. The elbow glyph goes exactly on the path's last segment. |
| Structure.NonNull | src/main/java/com/seanlee/writeme/DocumentationService.java:69-70 | The names kept are exactly the non-null ones, with their multiplicities. |
| Structure.ExtractStructure | src/main/java/com/seanlee/writeme/DocumentationService.java:61-96 | The tree opens with a fence line and ends with a fence. With no non-null name, it is just the two fences. |
| Structure.StructureIgnoresOrderAndNulls | src/main/java/com/seanlee/writeme/DocumentationService.java:68-72 | The tree depends only on how often each non-null name occurs, not on upload order or null names. |
| Structure.RepeatedPathAddsNothing | src/main/java/com/seanlee/writeme/DocumentationService.java:74-91 | A path equal to the previous one adds no line, so duplicate uploads render once. |
| Structure.SharedAncestorsNotRepeated | src/main/java/com/seanlee/writeme/DocumentationService.java:80-81 | When the previous path shares the first `j + 1` segments, none of those ancestors is rendered again. |
| Structure.FlatNameRendersOneLine | src/main/java/com/seanlee/writeme/DocumentationService.java:61-96 | A single name without `/` renders as the two fences around one elbow line. |
| Structure.FlatNamesRenderOneLineEach | src/main/java/com/seanlee/writeme/DocumentationService.java:68-91 | For names without `/`, the tree has exactly one depth-0 elbow line per distinct non-null name. Segments never repeat and ascend in `compareTo` order. |
| Structure.TextualPrefixSuppressesDirectory | src/main/java/com/seanlee/writeme/DocumentationService.java:80-81 | The ancestor test compares text, not path segments. If the previous name merely starts with a directory's name, that directory's line is skipped and only the file line appears. |
| Structure.SourceDirectoryMisfire | src/main/java/com/seanlee/writeme/DocumentationService.java:80-81 | After `src.txt`, the name `src/Main.java` renders only its `Main.java` line, with no `src` line. |
| Metadata.CutAtBrace | src/main/java/com/seanlee/writeme/DocumentationService.java:123 | `split("\\{")[0].trim()` fails exactly for a token made only of `{`. Otherwise it is the trimmed text before the first `{`, which holds no `{`. |
| Metadata.ClassName | src/main/java/com/seanlee/writeme/DocumentationService.java:119-127 | No name exactly when no token is `class`. A crash exactly when the first `class` token is the last token, or the next token is only braces. Otherwise the name is that next token, cut at `{` and trimmed. |
| Metadata.ClassNameAt | src/main/java/com/seanlee/writeme/DocumentationService.java:120-124 | Once the first `class` token is at position `i`, the three outcomes of `extractClassName` are decided by token `i + 1`. |
| Metadata.MethodName | src/main/java/com/seanlee/writeme/DocumentationService.java:129-136 | A name exactly when more than two tokens precede the first `(`. It is one of those tokens, non-empty, with no whitespace and no `(`. |
| Metadata.MethodNameIsLastToken | src/main/java/com/seanlee/writeme/DocumentationService.java:129-136 | For every line with `(`, a method name is the last word before the first `(`: whitespace comes right before it and only whitespace after it. |
| Metadata.MethodNameIsLastWord | src/main/java/com/seanlee/writeme/DocumentationService.java:129-136 | For words joined by single spaces and followed by `(`: with more than two words the name is the last word, otherwise there is none. |
| Metadata.ScanLine | src/main/java/com/seanlee/writeme/DocumentationService.java:100-116 | One line yields at most one class name and at most one method name. A class name or a crash needs the trimmed line to start with `public class`. A method name needs it to contain `public`, `(` and `)`. |
| Metadata.ScanLineFailure | src/main/java/com/seanlee/writeme/DocumentationService.java:100-116 | A line crashes exactly when, trimmed, it starts with `public class` and `extractClassName` crashes on it, and with that crash. |
| Metadata.ScanLineNames | src/main/java/com/seanlee/writeme/DocumentationService.java:100-116 | On a line that does not crash, the class names are `extractClassName`'s result when the trimmed line starts with `public class`, and none otherwise. The method names are `extractMethodName`'s result when the trimmed line contains `public`, `(` and `)`, and none otherwise. |
| Metadata.ExtractFileMetadata | src/main/java/com/seanlee/writeme/DocumentationService.java:98-117 | Every name found is well formed: class names hold no whitespace and no `{`; method names are non-empty with no whitespace and no `(`. There are no more names of each kind than lines. |
| Metadata.ScanWithFailsAtFirstCrash | src/main/java/com/seanlee/writeme/DocumentationService.java:100-116 | The scan fails exactly when some line fails, and then with the first failing line's error. |
| Metadata.MetadataFailsAtFirstCrash | src/main/java/com/seanlee/writeme/DocumentationService.java:98-117 | A file's analysis fails exactly when one of its lines crashes, with the first crash. |
| Metadata.ScanWithAppend | src/main/java/com/seanlee/writeme/DocumentationService.java:100-116 | Scanning two runs of lines is scanning the first, then the second. Names are appended in line order, never merged or reordered. |
| Metadata.MetadataScansRawLines | src/main/java/com/seanlee/writeme/DocumentationService.java:99 | Java's dropping of trailing empty lines makes no difference: the result is the scan of every raw line. |
| Metadata.MetadataOfJoinedContent | src/main/java/com/seanlee/writeme/DocumentationService.java:98-117 | The names of two texts joined by a newline are the names of the first followed by the names of the second. |
| Metadata.EmptyLineScansToNothing | src/main/java/com/seanlee/writeme/DocumentationService.java:100-116 | A blank line yields no name and no crash. |
| Metadata.ClassDeclarationYieldsName | src/main/java/com/seanlee/writeme/DocumentationService.java:103-107 | `public class Foo {` yields class `Foo` and no method, for any plain word `Foo`. |
| Metadata.MissingClassNameCrashes | src/main/java/com/seanlee/writeme/DocumentationService.java:123 | Any line that trims to a bare `public class` crashes: no token follows `class`. |
| Metadata.BraceOnlyClassNameCrashes | src/main/java/com/seanlee/writeme/DocumentationService.java:123 | Any line that trims to `public class {` crashes: the token after `class` splits into an empty array. |
| Metadata.GluedClassKeywordYieldsNothing | src/main/java/com/seanlee/writeme/DocumentationService.java:103-124 | `public classFoo` passes the prefix test but has no `class` token, so it yields nothing. |
| Metadata.RunMethodExample | src/main/java/com/seanlee/writeme/DocumentationService.java:129-136 | `public void run()` has three tokens before `(` and yields the method name `run`. |
| Metadata.ConstructorExample | src/main/java/com/seanlee/writeme/DocumentationService.java:129-136 | `public Foo()` has two tokens before `(` and yields no method name. |
| Metadata.MainMethodExample | src/main/java/com/seanlee/writeme/DocumentationService.java:110-115 | Any line that trims to `public static void main(String[] args) {` yields method `main` and no class. |
| KeyNames.Labelled | src/main/java/com/seanlee/writeme/DocumentationService.java:152-157 | One `tag + name + "\n"` line per name, in order. |
| KeyNames.ParseNames | src/main/java/com/seanlee/writeme/DocumentationService.java:152-157 | Reading consecutive tagged lines splits the input into the labelled names and the remaining lines. The first remaining line, if any, is not a complete `tag + name + "\n"` line. |
| KeyNames.BlockRoundTrip | src/main/java/com/seanlee/writeme/DocumentationService.java:150-157 | One file's `File:`/`Class:`/`Method:` block reads back as that file's name, classes and methods. |
| KeyNames.KeyLinesRoundTrip | src/main/java/com/seanlee/writeme/DocumentationService.java:148-159 | Reading the key-names section back gives exactly the files that have a class or a method, in order, with all their names. |
| KeyNames.KeyLinesAppend | src/main/java/com/seanlee/writeme/DocumentationService.java:149-159 | The section for two runs of files is the first run's lines followed by the second's. |
| KeyNames.FileWithoutNamesAddsNothing | src/main/java/com/seanlee/writeme/DocumentationService.java:150 | A file with neither classes nor methods contributes no line wherever it appears. |
| KeyNames.DemoKeyLines | src/main/java/com/seanlee/writeme/DocumentationService.java:150-157 | A file with only class `Main` gives its `File:` line and `  Class: Main`. |
| Prompt.BuildPrompt | src/main/java/com/seanlee/writeme/DocumentationService.java:138-171 | The prompt starts with the header, name line and description line, and ends with the fixed footer. Prompt.BuildPromptCarries gives its exact shape. |
| Prompt.ReadHeadRoundTrip | src/main/java/com/seanlee/writeme/DocumentationService.java:141-145 | The name and description can be read back from the prompt verbatim when neither holds a newline. |
| Prompt.PromptHasName | src/main/java/com/seanlee/writeme/DocumentationService.java:144 | The prompt contains the `Project name:` line. |
| Prompt.PromptHasStructure | src/main/java/com/seanlee/writeme/DocumentationService.java:146-148 | The prompt contains the `Project structure (exclude unnecessary items):` label, the tree, a newline and the `Key classes and methods:` label, in that order and adjacent. |
| Prompt.BuildPromptCarries | src/main/java/com/seanlee/writeme/DocumentationService.java:138-171 | The prompt is exactly the head, the labelled tree, a run of key-names lines and the footer. Those lines read back as exactly the files that have a class or a method, in order, with all their names, so no file block is missing, repeated or added. |
| Prompt.PromptHasKeyLine | src/main/java/com/seanlee/writeme/DocumentationService.java:148-159 | Every key-names line occurs in the prompt. |
| Prompt.DemoPrompt | src/main/java/com/seanlee/writeme/DocumentationService.java:138-159 | The prompt for project `Demo` with one file holding class `Main` contains `Project name: Demo` and the indented line `  Class: Main`. |
| Service.IsCodeFileIff | src/main/java/com/seanlee/writeme/DocumentationService.java:173-175 | A name is a code file exactly when it is present and of the form `stem + ".java"`. |
| Service.CodeUploads | src/main/java/com/seanlee/writeme/DocumentationService.java:44-46 | The analysed uploads are those `isCodeFile` accepts, each as many times as it was uploaded; the rest are dropped. |
| Service.CodeUploadsAppend | src/main/java/com/seanlee/writeme/DocumentationService.java:44-46 | Filtering two runs of uploads is filtering the first, then the second, so upload order is kept. |
| Service.AnalyseWithRecords | src/main/java/com/seanlee/writeme/DocumentationService.java:44-56 | A successful analysis holds one record per code file, in upload order, each with that file's name, content and scanned names. |
| Service.AnalyseWithFailsAtFirstCrash | src/main/java/com/seanlee/writeme/DocumentationService.java:44-56 | The analysis fails exactly when some code file's scan fails, and then with the first such file's error. |
| Service.AnalyseWithAppend | src/main/java/com/seanlee/writeme/DocumentationService.java:44-56 | Analysing two runs of uploads is analysing the first, then the second. Records keep upload order and the first failure wins. |
| Service.NonCodeUploadIgnored | src/main/java/com/seanlee/writeme/DocumentationService.java:46 | An upload `isCodeFile` rejects adds no record and cannot make the analysis fail. |
| Service.AnalyseProject | src/main/java/com/seanlee/writeme/DocumentationService.java:34-59 | Fails exactly when a code file crashes. Otherwise it keeps the name and description, takes the tree from all upload names, and holds one matching record per code file in upload order. |
| Service.StructureIgnoresUploadOrder | src/main/java/com/seanlee/writeme/DocumentationService.java:42 | Reordering the uploads keeps the analysis successful and the tree unchanged. |
| Service.NullUploadIgnored | src/main/java/com/seanlee/writeme/DocumentationService.java:42-46 | An upload with a null name changes neither the tree nor the records. |
| Service.NonCodeFileOnlyInTree | src/main/java/com/seanlee/writeme/DocumentationService.java:42-46 | A single non-source upload appears in the tree as one elbow line and produces no record. |
| Service.GenerateReadme | src/main/java/com/seanlee/writeme/DocumentationService.java:22-32 | A crashing analysis never reaches the backend. Otherwise the backend's answer for a prompt is returned unchanged, and that prompt is exactly the project's head, the labelled tree, key-names lines that read back as the analysed files with names, and the footer. It gives back the name and description. |

## Left out

- `AiService` and `DocumentationController` are not part of this model. The generation backend is the function parameter `generate` of `GenerateReadme`. Its HTTP call, JSON handling and error mapping are not modelled.
- Byte decoding (`new String(file.getBytes(), UTF_8)`) and its `IOException` are not modelled. An upload carries its content already decoded.
- The regular-expression engine is replaced by explicit splitters for the four patterns the service uses. `\s` is taken as its default ASCII class: space, tab, newline, carriage return, vertical tab and form feed.
- StringOrder.LessEq compares code points, whereas `String.compareTo` compares UTF-16 code units. The two orders differ only on characters outside the Basic Multilingual Plane.
- The `ProjectInfo` and `FileInfo` classes are mutable and filled in place; the model builds them as immutable values. A null project name or description is not modelled: Java would print them as `null`.
- Metadata.MethodName: states that the name is one of the tokens before `(`, not that it is the last one. Metadata.MethodNameIsLastToken gives the last-token property for every line.
- Metadata.ExtractFileMetadata: its own contract bounds and shapes the names. Which names they are is stated line by line by Metadata.ScanLineFailure and Metadata.ScanLineNames, and across lines by Metadata.ScanWithAppend and Metadata.ScanWithFailsAtFirstCrash.
- A line such as `public void run()` yields the method name `run`, because three tokens precede `(`; heads of two tokens or fewer, such as constructors, yield nothing. The model follows the code here.
- `extractClassName` throws on `public class` and `public class {`. The model follows the code: the whole analysis fails rather than skipping the line.
- The tree's ancestor test is a textual `startsWith`, so `src.txt` before `src/Main.java` hides the `src` line. This is kept as written and exhibited by Structure.SourceDirectoryMisfire.
