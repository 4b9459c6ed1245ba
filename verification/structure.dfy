/** The directory-tree rendering of the uploaded file names
    (`DocumentationService.extractStructure`).

    The names that are not null are sorted ascending and walked in order.
    Each name is split on `/`; the segment at depth `j` gets a line of its
    own unless the previously walked name starts with the first `j + 1`
    segments joined by `/`. A line is `j` levels of four-space indentation,
    an elbow glyph for the final segment of the name or a tee glyph for any
    other, the segment, and a newline. The lines sit between an opening
    fence with its newline and a closing fence without one. */
module Structure {
  import opened Wrappers
  import opened JavaStrings
  import opened StringOrder

  /** `"├── "`: a segment that is not the last of its path. */
  const TeeGlyph: string := "\U{251C}\U{2500}\U{2500} "
  /** `"└── "`: the last segment of a path. */
  const ElbowGlyph: string := "\U{2514}\U{2500}\U{2500} "
  const Fence: string := "```"

  /** One emitted line of the tree, before it is rendered as text. */
  datatype Entry = Entry(depth: nat, last: bool, segment: string)

  function Glyph(last: bool): string {
    if last then ElbowGlyph else TeeGlyph
  }

  /** The text of one tree line: `4 * depth` spaces, the glyph, the segment
      and a newline. */
  function RenderEntry(e: Entry): (r: string)
    ensures |r| == 4 * e.depth + 4 + |e.segment| + 1
    ensures forall k :: 0 <= k < 4 * e.depth ==> r[k] == ' '
    ensures r[4 * e.depth..4 * e.depth + 4] == Glyph(e.last)
    ensures r[4 * e.depth + 4..|r| - 1] == e.segment
    ensures r[|r| - 1] == '\n'
  {
    var r := Indent(e.depth) + Glyph(e.last) + e.segment + "\n";
    assert r[4 * e.depth..4 * e.depth + 4] == Glyph(e.last);
    assert r[4 * e.depth + 4..|r| - 1] == e.segment;
    r
  }

  function RenderEntries(es: seq<Entry>): string {
    if |es| == 0 then "" else RenderEntry(es[0]) + RenderEntries(es[1..])
  }

  /** Number of spaces a line starts with. */
  function LeadingSpaces(s: string): (n: nat)
    ensures n <= |s|
    ensures forall k :: 0 <= k < n ==> s[k] == ' '
    ensures n == |s| || s[n] != ' '
  {
    if |s| == 0 || s[0] != ' ' then 0 else 1 + LeadingSpaces(s[1..])
  }

  /** Reads one tree line back: its depth from the indentation, whether it
      is a path's last segment from the glyph, and the segment text. */
  function ParseEntry(line: string): Option<Entry> {
    var n := LeadingSpaces(line);
    var rest := line[n..];
    if n % 4 == 0 && |rest| >= 5 && rest[|rest| - 1] == '\n'
       && (rest[..4] == ElbowGlyph || rest[..4] == TeeGlyph)
    then Some(Entry(n / 4, rest[..4] == ElbowGlyph, rest[4..|rest| - 1]))
    else None
  }

  /** A rendered tree line reads back as the entry it was rendered from, so
      depth, glyph and segment are all recoverable from the text. */
  lemma ParseRenderEntry(e: Entry)
    ensures ParseEntry(RenderEntry(e)) == Some(e)
  {
    var line := RenderEntry(e);
    var n := LeadingSpaces(line);
    assert line[4 * e.depth] != ' ';
    assert n == 4 * e.depth;
    var rest := line[n..];
    assert rest[..4] == Glyph(e.last);
    assert rest[4..|rest| - 1] == e.segment;
    assert ElbowGlyph != TeeGlyph;
  }

  /** `r` holds exactly the lines for segments `j ..` of `parts` whose
      joined prefix is not a prefix of `prevDir`, in increasing depth, the
      elbow glyph on the last segment only. */
  predicate SegmentLines(prevDir: string, parts: seq<string>, j: nat, r: seq<Entry>)
    requires j <= |parts|
  {
    && (forall a :: 0 <= a < |r| ==>
         && j <= r[a].depth < |parts|
         && r[a] == Entry(r[a].depth, r[a].depth == |parts| - 1, parts[r[a].depth])
         && !(JoinedPrefix('/', parts, r[a].depth) <= prevDir))
    && (forall a, b :: 0 <= a < b < |r| ==> r[a].depth < r[b].depth)
    && (forall k :: j <= k < |parts| && !(JoinedPrefix('/', parts, k) <= prevDir) ==>
         Entry(k, k == |parts| - 1, parts[k]) in r)
  }

  /** One step of the inner loop: segment `j` gets a line in front of the
      later ones exactly when its joined prefix is not a prefix of `prevDir`. */
  lemma SegmentLinesStep(prevDir: string, parts: seq<string>, j: nat, rest: seq<Entry>)
    requires j < |parts| && SegmentLines(prevDir, parts, j + 1, rest)
    ensures !(JoinedPrefix('/', parts, j) <= prevDir) ==>
      SegmentLines(prevDir, parts, j, [Entry(j, j == |parts| - 1, parts[j])] + rest)
    ensures JoinedPrefix('/', parts, j) <= prevDir ==> SegmentLines(prevDir, parts, j, rest)
  {
    if !(JoinedPrefix('/', parts, j) <= prevDir) {
      var r := [Entry(j, j == |parts| - 1, parts[j])] + rest;
      assert forall b :: 0 < b < |r| ==> r[b] == rest[b - 1];
    }
  }

  /** Lines for segments `j ..` of one path, given the previously walked
      path `prevDir` (the inner loop of `extractStructure`). */
  function SegmentEntries(prevDir: string, parts: seq<string>, j: nat): (r: seq<Entry>)
    requires j <= |parts|
    ensures forall a :: 0 <= a < |r| ==>
      && j <= r[a].depth < |parts|
      && r[a] == Entry(r[a].depth, r[a].depth == |parts| - 1, parts[r[a].depth])
      && !(JoinedPrefix('/', parts, r[a].depth) <= prevDir)
    ensures forall a, b :: 0 <= a < b < |r| ==> r[a].depth < r[b].depth
    ensures forall k :: j <= k < |parts| && !(JoinedPrefix('/', parts, k) <= prevDir) ==>
      Entry(k, k == |parts| - 1, parts[k]) in r
    decreases |parts| - j
  {
    if j == |parts| then []
    else
      var rest := SegmentEntries(prevDir, parts, j + 1);
      SegmentLinesStep(prevDir, parts, j, rest);
      if !(JoinedPrefix('/', parts, j) <= prevDir) then [Entry(j, j == |parts| - 1, parts[j])] + rest
      else rest
  }

  /** Lines contributed by one path, given the previously walked path. */
  function PathEntries(prevDir: string, path: string): seq<Entry> {
    SegmentEntries(prevDir, Split(path, '/'), 0)
  }

  /** The outer loop of `extractStructure`: each path is compared with the
      one walked just before it. */
  function Walk(prevDir: string, paths: seq<string>): seq<Entry>
    decreases |paths|
  {
    if |paths| == 0 then [] else PathEntries(prevDir, paths[0]) + Walk(paths[0], paths[1..])
  }

  /** The names that are not null, in their original order. */
  function NonNull(names: seq<Option<string>>): (r: seq<string>)
    ensures |r| <= |names|
    ensures forall s :: multiset(r)[s] == multiset(names)[Some(s)]
  {
    if |names| == 0 then []
    else
      var rest := NonNull(names[1..]);
      assert names == [names[0]] + names[1..];
      if names[0].Some? then [names[0].value] + rest else rest
  }

  /** The tree lines for a list of uploaded names, the first path being
      compared with the empty string. */
  function StructureEntries(names: seq<Option<string>>): seq<Entry> {
    Walk("", Sort(NonNull(names)))
  }

  /** `extractStructure`: the tree wrapped in a fenced block. */
  function ExtractStructure(names: seq<Option<string>>): (r: string)
    ensures Fence + "\n" <= r
    ensures EndsWith(r, Fence)
    ensures (forall i :: 0 <= i < |names| ==> names[i].None?) ==> r == Fence + "\n" + Fence
  {
    var tree := RenderEntries(StructureEntries(names));
    AllNullRendersNothing(names);
    Enclosed(Fence + "\n", tree, Fence);
    Fence + "\n" + tree + Fence
  }

  /** With no non-null name there is no tree line. */
  lemma AllNullRendersNothing(names: seq<Option<string>>)
    ensures (forall i :: 0 <= i < |names| ==> names[i].None?) ==> RenderEntries(StructureEntries(names)) == ""
  {
    if forall i :: 0 <= i < |names| ==> names[i].None? {
      assert multiset(NonNull(names)) == multiset{};
    }
  }

  /** The rendering depends only on how often each non-null name occurs:
      input order and null names make no difference. */
  lemma StructureIgnoresOrderAndNulls(a: seq<Option<string>>, b: seq<Option<string>>)
    requires forall s :: multiset(a)[Some(s)] == multiset(b)[Some(s)]
    ensures ExtractStructure(a) == ExtractStructure(b)
  {
    assert multiset(NonNull(a)) == multiset(NonNull(b));
    SortDependsOnlyOnMultiset(NonNull(a), NonNull(b));
  }

  /** A path whose every joined prefix is a prefix of `prevDir` adds no line. */
  lemma {:induction false} NoEntriesUnderCoveredPrefixes(prevDir: string, parts: seq<string>, j: nat)
    requires j <= |parts|
    requires forall k :: j <= k < |parts| ==> JoinedPrefix('/', parts, k) <= prevDir
    ensures SegmentEntries(prevDir, parts, j) == []
    decreases |parts| - j
  {
    if j < |parts| {
      NoEntriesUnderCoveredPrefixes(prevDir, parts, j + 1);
    }
  }

  /** A path walked right after an identical path contributes no line. */
  lemma RepeatedPathAddsNothing(path: string)
    ensures PathEntries(path, path) == []
  {
    SplitShape(path, '/');
    NoEntriesUnderCoveredPrefixes(path, Split(path, '/'), 0);
  }

  /** When the previous path has the same first `j + 1` segments, none of
      those ancestors is rendered again: only deeper segments get lines. */
  lemma SharedAncestorsNotRepeated(prevDir: string, path: string, j: nat)
    requires j < |Split(prevDir, '/')| && j < |Split(path, '/')|
    requires Split(prevDir, '/')[..j + 1] == Split(path, '/')[..j + 1]
    ensures forall e :: e in PathEntries(prevDir, path) ==> e.depth > j
  {
    var pp := Split(prevDir, '/');
    var q := Split(path, '/');
    SplitShape(prevDir, '/');
    forall k | 0 <= k <= j ensures JoinedPrefix('/', q, k) <= prevDir {
      assert q[..k + 1] == q[..j + 1][..k + 1] == pp[..j + 1][..k + 1] == pp[..k + 1];
      assert JoinedPrefix('/', pp, k) <= prevDir;
    }
  }

  /** A name with one directory level splits into its two segments. */
  lemma SplitDirFile(dir: string, file: string)
    requires '/' !in dir && '/' !in file && file != ""
    ensures Split(dir + "/" + file, '/') == [dir, file]
  {
    var s := dir + "/" + file;
    assert s[|dir|] == '/';
    SplitJoinRoundTrip('/', [dir, file]);
    assert Join('/', [dir, file]) == dir + ['/'] + Join('/', [file]);
  }

  /** A flat name on its own renders as exactly one elbow line. */
  lemma FlatNameRendersOneLine(name: string)
    requires name != "" && '/' !in name
    ensures ExtractStructure([Some(name)]) == Fence + "\n" + ElbowGlyph + name + "\n" + Fence
  {
    assert NonNull([Some(name)]) == [name];
    assert Sort([name]) == [name];
    assert Split(name, '/') == [name];
    assert JoinedPrefix('/', [name], 0) == name;
    assert SegmentEntries("", [name], 1) == [];
    assert PathEntries("", name) == [Entry(0, true, name)];
    assert Walk("", [name]) == PathEntries("", name) + Walk(name, []);
    assert StructureEntries([Some(name)]) == [Entry(0, true, name)];
    assert RenderEntries([Entry(0, true, name)]) == RenderEntry(Entry(0, true, name));
  }

  /** The prefix test is textual: when the previous name merely starts with
      the directory's name (`src.txt` before `src/Main.java`), the
      directory's own line is suppressed and only the file line appears. */
  lemma TextualPrefixSuppressesDirectory(prevDir: string, dir: string, file: string)
    requires dir != "" && '/' !in dir && file != "" && '/' !in file
    requires dir <= prevDir && !(dir + "/" + file <= prevDir)
    ensures PathEntries(prevDir, dir + "/" + file) == [Entry(1, true, file)]
  {
    var parts := [dir, file];
    SplitDirFile(dir, file);
    assert JoinedPrefix('/', parts, 0) == dir by { assert parts[..1] == [dir]; }
    assert JoinedPrefix('/', parts, 1) == dir + "/" + file by {
      assert parts[..2] == parts;
      assert parts[1..] == [file];
      assert Join('/', parts) == dir + ['/'] + Join('/', [file]);
    }
    assert SegmentEntries(prevDir, parts, 2) == [];
    assert SegmentEntries(prevDir, parts, 1) == [Entry(1, true, file)];
  }

  /** Example: `src.txt` sorts before `src/Main.java` ('.' < '/'), so the
      tree shows `Main.java` under no `src` line. */
  lemma SourceDirectoryMisfire(prevDir: string, path: string)
    requires prevDir == "src.txt" && path == "src/Main.java"
    ensures PathEntries(prevDir, path) == [Entry(1, true, "Main.java")]
  {
    assert "src" <= "src.txt";
    assert "src/Main.java" == "src" + "/" + "Main.java";
    assert !("src/Main.java" <= "src.txt") by { assert "src.txt"[3] != "src/Main.java"[3]; }
    TextualPrefixSuppressesDirectory("src.txt", "src", "Main.java");
  }

  predicate Flat(name: string) {
    name != "" && '/' !in name
  }

  /** Putting at most one line for `p` before lines whose segments are
      distinct, ascending and above `p` keeps them distinct and ascending. */
  lemma SegmentsAscendCons(p: string, head: seq<Entry>, tail: seq<Entry>)
    requires head == [] || head == [Entry(0, true, p)]
    requires forall e :: e in tail ==> e.segment != p && LessEq(p, e.segment)
    requires forall a, b :: 0 <= a < b < |tail| ==>
      tail[a].segment != tail[b].segment && LessEq(tail[a].segment, tail[b].segment)
    ensures forall a, b :: 0 <= a < b < |head + tail| ==>
      (head + tail)[a].segment != (head + tail)[b].segment && LessEq((head + tail)[a].segment, (head + tail)[b].segment)
  {
    if head != [] {
      var r := head + tail;
      forall a, b | 0 <= a < b < |r|
        ensures r[a].segment != r[b].segment && LessEq(r[a].segment, r[b].segment)
      {
        assert r[b] == tail[b - 1];
        if a > 0 {
          assert r[a] == tail[a - 1];
        } else {
          assert tail[b - 1] in tail;
        }
      }
    }
  }

  /** Walking sorted flat names: one depth-0 elbow line per name that
      differs from its predecessor, the lines in strictly ascending order. */
  lemma {:induction false} FlatWalk(prevDir: string, paths: seq<string>)
    requires forall i :: 0 <= i < |paths| ==> Flat(paths[i])
    requires Sorted([prevDir] + paths)
    ensures forall e :: e in Walk(prevDir, paths) ==> e.depth == 0 && e.last && e.segment in paths
    ensures forall e :: e in Walk(prevDir, paths) ==> e.segment != prevDir && LessEq(prevDir, e.segment)
    ensures forall i :: 0 <= i < |paths| && paths[i] != prevDir ==> Entry(0, true, paths[i]) in Walk(prevDir, paths)
    ensures forall a, b :: 0 <= a < b < |Walk(prevDir, paths)| ==>
      Walk(prevDir, paths)[a].segment != Walk(prevDir, paths)[b].segment
    ensures forall a, b :: 0 <= a < b < |Walk(prevDir, paths)| ==>
      LessEq(Walk(prevDir, paths)[a].segment, Walk(prevDir, paths)[b].segment)
    decreases |paths|
  {
    if |paths| > 0 {
      var p := paths[0];
      var rest := paths[1..];
      assert LessEq(prevDir, p) by { assert ([prevDir] + paths)[0] == prevDir && ([prevDir] + paths)[1] == p; }
      assert Sorted([p] + rest) by {
        assert [p] + rest == ([prevDir] + paths)[1..];
      }
      FlatWalk(p, rest);
      assert Split(p, '/') == [p];
      assert JoinedPrefix('/', [p], 0) == p;
      var head := PathEntries(prevDir, p);
      assert SegmentEntries(prevDir, [p], 1) == [];
      assert head == SegmentEntries(prevDir, [p], 0);
      if p <= prevDir {
        PrefixOfSmallerIsEqual(prevDir, p);
        assert head == [];
      } else {
        assert head == [Entry(0, true, p)];
      }
      var tail := Walk(p, rest);
      assert Walk(prevDir, paths) == head + tail;
      forall e | e in tail ensures e.segment != prevDir && LessEq(prevDir, e.segment) {
        LessEqTransitive(prevDir, p, e.segment);
        if LessEq(e.segment, prevDir) {
          LessEqTransitive(p, e.segment, prevDir);
          LessEqAntisymmetric(p, prevDir);
        }
      }
      SegmentsAscendCons(p, head, tail);
      forall i | 0 <= i < |paths| && paths[i] != prevDir
        ensures Entry(0, true, paths[i]) in Walk(prevDir, paths)
      {
        if i > 0 && paths[i] != p {
          assert paths[i] == rest[i - 1];
        }
      }
    }
  }

  /** A string is among the sorted non-null names exactly when some upload
      carries it as its name. */
  lemma SortedNamesMembership(names: seq<Option<string>>, name: string)
    ensures name in Sort(NonNull(names)) <==> Some(name) in names
  {
    var paths := Sort(NonNull(names));
    assert name in paths <==> name in multiset(paths);
    assert Some(name) in names <==> Some(name) in multiset(names);
  }

  /** For flat names, the tree holds exactly one depth-0 elbow line per
      distinct non-null name, no name twice, in ascending order. */
  lemma FlatNamesRenderOneLineEach(names: seq<Option<string>>)
    requires forall i :: 0 <= i < |names| && names[i].Some? ==> Flat(names[i].value)
    ensures forall e :: e in StructureEntries(names) ==> e.depth == 0 && e.last && Some(e.segment) in names
    ensures forall i :: 0 <= i < |names| && names[i].Some? ==> Entry(0, true, names[i].value) in StructureEntries(names)
    ensures forall a, b :: 0 <= a < b < |StructureEntries(names)| ==>
      StructureEntries(names)[a].segment != StructureEntries(names)[b].segment
    ensures forall a, b :: 0 <= a < b < |StructureEntries(names)| ==>
      LessEq(StructureEntries(names)[a].segment, StructureEntries(names)[b].segment)
  {
    var paths := Sort(NonNull(names));
    forall i | 0 <= i < |paths| ensures Flat(paths[i]) {
      SortedNamesMembership(names, paths[i]);
      var k :| 0 <= k < |names| && names[k] == Some(paths[i]);
    }
    SortedAfterEmpty(paths);
    FlatWalk("", paths);
    forall e | e in StructureEntries(names) ensures Some(e.segment) in names {
      SortedNamesMembership(names, e.segment);
    }
    forall i | 0 <= i < |names| && names[i].Some?
      ensures Entry(0, true, names[i].value) in StructureEntries(names)
    {
      SortedNamesMembership(names, names[i].value);
      var k :| 0 <= k < |paths| && paths[k] == names[i].value;
    }
  }

  lemma SortedAfterEmpty(paths: seq<string>)
    requires Sorted(paths)
    ensures Sorted([""] + paths)
  {
    forall i, j | 0 <= i < j < |[""] + paths| ensures LessEq(([""] + paths)[i], ([""] + paths)[j]) {
      if i > 0 {
        assert ([""] + paths)[i] == paths[i - 1] && ([""] + paths)[j] == paths[j - 1];
      }
    }
  }
}
