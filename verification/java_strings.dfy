/** The handful of `java.lang.String` operations the documentation service
    relies on, written out explicitly: prefix/suffix/substring tests,
    `indexOf`, `trim`, `String.join` with a one-character separator, and
    `split` for the four patterns the service uses (`"/"`, `"\\{"`,
    `"\\s+"`, and `"\n"`), including Java's rule that trailing empty strings
    are dropped from the result. */
module JavaStrings {
  import opened SeqFacts


  /** A character matched by the regular-expression class `\s`. */
  predicate IsWs(c: char) {
    c == ' ' || c == '\t' || c == '\n' || c == '\r' || c as int == 0x0B || c as int == 0x0C
  }

  /** A character removed by `String.trim`: any code point up to U+0020. */
  predicate IsTrimmable(c: char) {
    c as int <= 0x20
  }

  predicate NoWs(s: string) {
    forall k :: 0 <= k < |s| ==> !IsWs(s[k])
  }

  predicate HasWs(s: string) {
    exists k :: 0 <= k < |s| && IsWs(s[k])
  }

  predicate StartsWith(s: string, prefix: string) {
    prefix <= s
  }

  predicate EndsWith(s: string, suffix: string) {
    |suffix| <= |s| && s[|s| - |suffix|..] == suffix
  }

  /** `s.contains(sub)`. */
  predicate Contains(s: string, sub: string)
    decreases |s|
  {
    sub <= s || (|s| > 0 && Contains(s[1..], sub))
  }

  /** `sub` occurs in `s` starting at position `i`. */
  predicate OccursAt(s: string, sub: string, i: int) {
    0 <= i <= |s| - |sub| && s[i..i + |sub|] == sub
  }

  /** An occurrence of `sub` at `i` makes `s.contains(sub)` true. */
  lemma {:induction false} OccursContains(s: string, sub: string, i: int)
    requires OccursAt(s, sub, i)
    ensures Contains(s, sub)
    decreases i
  {
    if i > 0 {
      assert s[1..][i - 1..i - 1 + |sub|] == s[i..i + |sub|];
      OccursContains(s[1..], sub, i - 1);
    } else {
      assert s[..|sub|] == sub;
    }
  }

  /** When `s.contains(sub)` holds, some position of `s` starts an occurrence. */
  lemma {:induction false} ContainsOccurs(s: string, sub: string) returns (i: int)
    requires Contains(s, sub)
    ensures OccursAt(s, sub, i)
    decreases |s|
  {
    if sub <= s {
      assert s[..|sub|] == sub;
      i := 0;
    } else {
      var k := ContainsOccurs(s[1..], sub);
      assert s[k + 1..k + 1 + |sub|] == s[1..][k..k + |sub|];
      i := k + 1;
    }
  }

  /** `Contains` holds exactly when `sub` occurs at some position of `s`. */
  lemma ContainsIffOccurs(s: string, sub: string)
    ensures Contains(s, sub) <==> exists i :: OccursAt(s, sub, i)
  {
    if Contains(s, sub) {
      var i := ContainsOccurs(s, sub);
    }
    forall i | OccursAt(s, sub, i) ensures Contains(s, sub) {
      OccursContains(s, sub, i);
    }
  }

  /** Dropping a leading part of a concatenation leaves the rest. */
  lemma DropPrefix(a: string, b: string)
    ensures a <= a + b && (a + b)[|a|..] == b
  {
  }

  /** A string contains every infix of itself. */
  lemma ContainsMiddle(a: string, sub: string, b: string)
    ensures Contains(a + sub + b, sub)
  {
    assert (a + sub + b)[|a|..|a| + |sub|] == sub;
    OccursContains(a + sub + b, sub, |a|);
  }

  /** A string that starts with `t` contains whatever `t` contains. */
  lemma ContainsInPrefix(s: string, t: string, sub: string)
    requires t <= s && Contains(t, sub)
    ensures Contains(s, sub)
  {
    var i := ContainsOccurs(t, sub);
    assert s[i..i + |sub|] == t[i..i + |sub|];
    OccursContains(s, sub, i);
  }

  /** `x + (a + sub + b) + y` contains `sub`. */
  lemma ContainsInside(x: string, a: string, sub: string, b: string, y: string)
    ensures Contains(x + (a + sub + b) + y, sub)
  {
    assert x + (a + sub + b) + y == (x + a) + sub + (b + y);
    ContainsMiddle(x + a, sub, b + y);
  }

  /** A chain of four parts starts with the first and ends with the last. */
  lemma ChainEnds(a: string, b: string, c: string, d: string)
    ensures StartsWith(a + b + c + d, a) && EndsWith(a + b + c + d, d)
  {
    assert (a + b + c + d)[..|a|] == a;
    assert (a + b + c + d)[|a + b + c|..] == d;
  }

  /** `a + b + c` starts with `a` and ends with `c`. */
  lemma Enclosed(a: string, b: string, c: string)
    ensures StartsWith(a + b + c, a) && EndsWith(a + b + c, c)
  {
    assert (a + b + c)[..|a|] == a;
    assert (a + b + c)[|a + b|..] == c;
  }

  /** Whatever contains `a + sub + b` contains `sub`. */
  lemma ContainsInfix(s: string, a: string, sub: string, b: string)
    requires Contains(s, a + sub + b)
    ensures Contains(s, sub)
  {
    var i := ContainsOccurs(s, a + sub + b);
    var w := s[i..i + |a + sub + b|];
    assert w[|a|..|a| + |sub|] == sub;
    forall j | 0 <= j < |sub| ensures s[i + |a|..i + |a| + |sub|][j] == sub[j] {
      assert w[|a| + j] == s[i + |a| + j];
    }
    assert s[i + |a|..i + |a| + |sub|] == sub;
    OccursContains(s, sub, i + |a|);
  }

  /** For a one-character needle, `contains` is plain membership. */
  lemma ContainsChar(s: string, c: char)
    ensures Contains(s, [c]) <==> c in s
  {
    ContainsIffOccurs(s, [c]);
    forall i | 0 <= i < |s| && s[i] == c ensures OccursAt(s, [c], i) {
      assert s[i..i + 1] == [c];
    }
    forall i | OccursAt(s, [c], i) ensures s[i] == c {
      assert s[i..i + 1][0] == s[i];
    }
  }

  /** `s.indexOf(c)` for a character that occurs in `s`. */
  function IndexOf(s: string, c: char): (r: nat)
    requires c in s
    ensures r < |s| && s[r] == c
    ensures c !in s[..r]
  {
    if s[0] == c then 0
    else
      assert c in s[1..];
      var k := IndexOf(s[1..], c);
      assert s[..k + 1] == [s[0]] + s[1..][..k];
      k + 1
  }

  /** The part of `s` before the first `c`, or all of `s` when there is none. */
  function Before(s: string, c: char): (r: string)
    ensures r <= s && c !in r
    ensures |r| == |s| || s[|r|] == c
  {
    if |s| == 0 then ""
    else if s[0] == c then ""
    else [s[0]] + Before(s[1..], c)
  }

  /** `Before` cuts exactly at `indexOf`. */
  lemma BeforeIsIndexOf(s: string, c: char)
    requires c in s
    ensures Before(s, c) == s[..IndexOf(s, c)]
  {
    var b := Before(s, c);
    var i := IndexOf(s, c);
    assert forall k :: 0 <= k < i ==> s[..i][k] == s[k];
    assert forall k :: 0 <= k < |b| ==> b[k] == s[k];
  }

  /** `Before` stops at the first separator. */
  lemma {:induction false} BeforeFirstSeparator(a: string, b: string, c: char)
    requires c !in a
    ensures Before(a + [c] + b, c) == a
    decreases |a|
  {
    if |a| > 0 {
      assert (a + [c] + b)[1..] == a[1..] + [c] + b;
      BeforeFirstSeparator(a[1..], b, c);
      assert [a[0]] + a[1..] == a;
    }
  }

  /** Number of leading characters `trim` removes. */
  function LeadingTrimmable(s: string): (n: nat)
    ensures n <= |s|
    ensures forall k :: 0 <= k < n ==> IsTrimmable(s[k])
    ensures n == |s| || !IsTrimmable(s[n])
  {
    if |s| == 0 || !IsTrimmable(s[0]) then 0
    else 1 + LeadingTrimmable(s[1..])
  }

  /** Number of trailing characters `trim` removes. */
  function TrailingTrimmable(s: string): (n: nat)
    ensures n <= |s|
    ensures forall k :: |s| - n <= k < |s| ==> IsTrimmable(s[k])
    ensures n == |s| || !IsTrimmable(s[|s| - n - 1])
  {
    if |s| == 0 || !IsTrimmable(s[|s| - 1]) then 0
    else 1 + TrailingTrimmable(s[..|s| - 1])
  }

  /** `s.trim()`: the slice of `s` left after removing every leading and
      trailing character up to U+0020. */
  function Trim(s: string): (r: string)
    ensures |r| <= |s|
    ensures LeadingTrimmable(s) + |r| <= |s| && r == s[LeadingTrimmable(s)..LeadingTrimmable(s) + |r|]
    ensures forall k :: LeadingTrimmable(s) + |r| <= k < |s| ==> IsTrimmable(s[k])
    ensures r == "" || (!IsTrimmable(r[0]) && !IsTrimmable(r[|r| - 1]))
    ensures s == "" || (!IsTrimmable(s[0]) && !IsTrimmable(s[|s| - 1])) ==> r == s
  {
    var t := s[LeadingTrimmable(s)..];
    var n := TrailingTrimmable(t);
    t[..|t| - n]
  }
  /** Trimming a prefix of `s` keeps only characters of `s`. */
  lemma TrimInside(p: string, s: string)
    requires p <= s
    ensures forall ch :: ch in Trim(p) ==> ch in s
    ensures NoWs(s) ==> NoWs(Trim(p))
  {
    var t := Trim(p);
    var n := LeadingTrimmable(p);
    forall k | 0 <= k < |t| ensures t[k] == s[n + k] {
      assert t[k] == p[n + k];
    }
  }


  /** `"    ".repeat(n)`. */
  function Indent(n: nat): (r: string)
    ensures |r| == 4 * n
    ensures forall k :: 0 <= k < |r| ==> r[k] == ' '
  {
    if n == 0 then "" else "    " + Indent(n - 1)
  }

  /** `String.join(sep, parts)` for a one-character separator. */
  function Join(sep: char, parts: seq<string>): string {
    if |parts| == 0 then ""
    else if |parts| == 1 then parts[0]
    else parts[0] + [sep] + Join(sep, parts[1..])
  }

  /** Concatenation of a sequence of strings (a `StringBuilder` fed in order). */
  function Concat(parts: seq<string>): string {
    if |parts| == 0 then "" else parts[0] + Concat(parts[1..])
  }

  lemma {:induction false} ConcatAppend(a: seq<string>, b: seq<string>)
    ensures Concat(a + b) == Concat(a) + Concat(b)
  {
    if |a| == 0 {
      assert a + b == b;
    } else {
      assert (a + b)[1..] == a[1..] + b;
      ConcatAppend(a[1..], b);
    }
  }

  /** A character that is neither the separator nor in any part is not in
      the joined string. */
  lemma {:induction false} JoinAvoids(sep: char, parts: seq<string>, c: char)
    requires c != sep && forall k :: 0 <= k < |parts| ==> c !in parts[k]
    ensures c !in Join(sep, parts)
    decreases |parts|
  {
    if |parts| > 1 {
      JoinAvoids(sep, parts[1..], c);
    }
  }

  /** Joining a prefix of the pieces yields a prefix of the joined string. */
  lemma {:induction false} JoinPrefix(sep: char, parts: seq<string>, k: nat)
    requires 1 <= k <= |parts|
    ensures Join(sep, parts[..k]) <= Join(sep, parts)
  {
    if k == |parts| {
      assert parts[..k] == parts;
    } else if k == 1 {
      assert parts[..1] == [parts[0]];
    } else {
      assert parts[..k][1..] == parts[1..][..k - 1];
      JoinPrefix(sep, parts[1..], k - 1);
    }
  }

  /** The first `j + 1` pieces joined back together: for path segments,
      the path of the directory (or file) at depth `j`. */
  function JoinedPrefix(sep: char, parts: seq<string>, j: nat): string
    requires j < |parts|
  {
    Join(sep, parts[..j + 1])
  }

  /** Java's regex split before the trailing empties are dropped: the pieces
      between successive occurrences of `c`. */
  function RawSplit(s: string, c: char): (r: seq<string>)
    ensures |r| >= 1
    ensures forall k :: 0 <= k < |r| ==> c !in r[k]
    ensures Join(c, r) == s
    decreases |s|
  {
    if |s| == 0 then [""]
    else
      var rest := RawSplit(s[1..], c);
      if s[0] == c then
        var r := [""] + rest;
        assert r[1..] == rest;
        r
      else
        var r := [[s[0]] + rest[0]] + rest[1..];
        assert |rest| > 1 ==> Join(c, rest) == rest[0] + [c] + Join(c, rest[1..]);
        assert |rest| > 1 ==> r[1..] == rest[1..];
        r
  }

  lemma {:induction false} RawSplitFirst(s: string, c: char)
    ensures RawSplit(s, c)[0] == Before(s, c)
    decreases |s|
  {
    if |s| > 0 && s[0] != c {
      RawSplitFirst(s[1..], c);
    }
  }

  predicate AllEmpty(parts: seq<string>) {
    forall k :: 0 <= k < |parts| ==> parts[k] == ""
  }

  predicate AllChar(s: string, c: char) {
    forall k :: 0 <= k < |s| ==> s[k] == c
  }

  /** Every raw piece is empty exactly when `s` consists only of `c`. */
  lemma {:induction false} RawSplitAllEmpty(s: string, c: char)
    ensures AllEmpty(RawSplit(s, c)) <==> AllChar(s, c)
    decreases |s|
  {
    if |s| > 0 {
      RawSplitAllEmpty(s[1..], c);
      var rest := RawSplit(s[1..], c);
      if s[0] == c {
        var r := RawSplit(s, c);
        assert r == [""] + rest;
        assert AllEmpty(r) <==> AllEmpty(rest) by {
          if AllEmpty(rest) {
            forall k | 0 <= k < |r| ensures r[k] == "" {
              if k > 0 { assert r[k] == rest[k - 1]; }
            }
          }
          if AllEmpty(r) {
            forall k | 0 <= k < |rest| ensures rest[k] == "" {
              assert rest[k] == r[k + 1];
            }
          }
        }
        assert AllChar(s, c) <==> AllChar(s[1..], c) by {
          if AllChar(s[1..], c) {
            forall k | 0 <= k < |s| ensures s[k] == c {
              if k > 0 { assert s[k] == s[1..][k - 1]; }
            }
          }
          if AllChar(s, c) {
            forall k | 0 <= k < |s[1..]| ensures s[1..][k] == c {
              assert s[1..][k] == s[k + 1];
            }
          }
        }
      } else {
        assert RawSplit(s, c)[0] != "";
        assert !AllChar(s, c);
      }
    }
  }

  /** Java's `split` with limit 0 removes trailing empty strings. */
  function DropTrailingEmpty(parts: seq<string>): (r: seq<string>)
    ensures r <= parts
    ensures r == [] || r[|r| - 1] != ""
    ensures forall k :: |r| <= k < |parts| ==> parts[k] == ""
  {
    if |parts| == 0 then []
    else if parts[|parts| - 1] == "" then DropTrailingEmpty(parts[..|parts| - 1])
    else parts
  }

  lemma {:induction false} RawSplitNoSeparator(s: string, c: char)
    requires c !in s
    ensures RawSplit(s, c) == [s]
    decreases |s|
  {
    if |s| > 0 {
      RawSplitNoSeparator(s[1..], c);
      assert [s[0]] + s[1..] == s;
    }
  }

  /** Splitting text glued with one separator splits both halves. */
  lemma {:induction false} RawSplitAppend(a: string, b: string, c: char)
    ensures RawSplit(a + [c] + b, c) == RawSplit(a, c) + RawSplit(b, c)
    decreases |a|
  {
    var s := a + [c] + b;
    if |a| == 0 {
      assert s[1..] == b;
    } else {
      assert s[1..] == a[1..] + [c] + b;
      RawSplitAppend(a[1..], b, c);
    }
  }

  /** Joining separator-free pieces and splitting again gives the pieces back. */
  lemma {:induction false} RawSplitJoin(c: char, parts: seq<string>)
    requires |parts| >= 1
    requires forall k :: 0 <= k < |parts| ==> c !in parts[k]
    ensures RawSplit(Join(c, parts), c) == parts
    decreases |parts|
  {
    if |parts| == 1 {
      RawSplitNoSeparator(parts[0], c);
    } else {
      RawSplitJoin(c, parts[1..]);
      RawSplitNoSeparator(parts[0], c);
      RawSplitAppend(parts[0], Join(c, parts[1..]), c);
      assert [parts[0]] + parts[1..] == parts;
    }
  }

  /** `s.split(p)` where the pattern `p` matches exactly the character `c`
      (`"/"`, `"\\{"`, `"\n"`). When `c` does not occur the result is `[s]`
      (so `"".split(p)` is `[""]`); otherwise trailing empty pieces go. */
  function Split(s: string, c: char): seq<string> {
    if c !in s then [s] else DropTrailingEmpty(RawSplit(s, c))
  }

  /** No piece of `Split` holds the separator. */
  lemma SplitPiecesAvoid(s: string, c: char)
    ensures forall k :: 0 <= k < |Split(s, c)| ==> c !in Split(s, c)[k]
  {
    var raw := RawSplit(s, c);
    if c in s {
      forall k | 0 <= k < |Split(s, c)| ensures c !in Split(s, c)[k] {
        assert Split(s, c)[k] == raw[k];
      }
    }
  }

  /** `Split` is empty exactly for a non-empty run of separators. */
  lemma SplitEmptyIff(s: string, c: char)
    ensures Split(s, c) == [] <==> |s| > 0 && AllChar(s, c)
  {
    var raw := RawSplit(s, c);
    RawSplitAllEmpty(s, c);
    if c in s {
      var r := Split(s, c);
      if r == [] {
        assert AllEmpty(raw);
      } else {
        assert raw[|r| - 1] == r[|r| - 1] != "";
      }
      assert s[IndexOf(s, c)] == c;
    } else if |s| > 0 {
      assert s[0] != c;
    }
  }

  /** The first piece of a non-empty `Split` is the text before the first
      separator. */
  lemma SplitFirst(s: string, c: char)
    ensures Split(s, c) != [] ==> Split(s, c)[0] == Before(s, c)
  {
    RawSplitFirst(s, c);
    if c !in s {
      assert Before(s, c) == s;
    } else if Split(s, c) != [] {
      assert Split(s, c)[0] == RawSplit(s, c)[0];
    }
  }

  /** Re-joining the first pieces of `Split` gives back a prefix of the
      input. */
  lemma SplitPrefixes(s: string, c: char)
    ensures forall j :: 0 <= j < |Split(s, c)| ==> JoinedPrefix(c, Split(s, c), j) <= s
  {
    var raw := RawSplit(s, c);
    var r := Split(s, c);
    if c !in s {
      assert r[..1] == [s];
    } else {
      forall j | 0 <= j < |r| ensures JoinedPrefix(c, r, j) <= s {
        assert r[..j + 1] == raw[..j + 1];
        JoinPrefix(c, raw, j + 1);
      }
    }
  }

  /** A join is at least as long as its last piece. */
  lemma {:induction false} JoinLength(c: char, parts: seq<string>)
    requires |parts| >= 1
    ensures |Join(c, parts)| >= |parts[|parts| - 1]|
    decreases |parts|
  {
    if |parts| > 1 {
      JoinLength(c, parts[1..]);
    }
  }

  /** Several pieces join into at least the first, a separator and the last. */
  lemma JoinOfSeveral(c: char, parts: seq<string>)
    requires |parts| >= 1
    ensures |parts| > 1 ==> |Join(c, parts)| >= |parts[0]| + 1 + |parts[|parts| - 1]|
  {
    if |parts| > 1 {
      JoinLength(c, parts[1..]);
    }
  }

  /** `n` copies of `c`. */
  function Repeat(c: char, n: nat): (r: string)
    ensures |r| == n && AllChar(r, c)
  {
    if n == 0 then "" else [c] + Repeat(c, n - 1)
  }

  /** Joining only empty pieces gives one separator fewer than pieces. */
  lemma {:induction false} JoinAllEmpty(c: char, e: seq<string>)
    requires |e| >= 1 && AllEmpty(e)
    ensures Join(c, e) == Repeat(c, |e| - 1)
    decreases |e|
  {
    if |e| > 1 {
      JoinAllEmpty(c, e[1..]);
      assert e[0] == "";
    }
  }

  /** Joining pieces followed by empty pieces appends one separator per
      empty piece. */
  lemma {:induction false} JoinTrailingEmpty(c: char, r: seq<string>, e: seq<string>)
    requires |r| >= 1 && AllEmpty(e)
    ensures Join(c, r + e) == Join(c, r) + Repeat(c, |e|)
    decreases |r|
  {
    if |e| == 0 {
      assert r + e == r;
    } else if |r| == 1 {
      assert (r + e)[1..] == e;
      JoinAllEmpty(c, e);
      assert Repeat(c, |e|) == [c] + Repeat(c, |e| - 1);
    } else {
      assert (r + e)[1..] == r[1..] + e;
      JoinTrailingEmpty(c, r[1..], e);
      Assoc(r[0] + [c], Join(c, r[1..]), Repeat(c, |e|));
    }
  }

  /** Java drops the trailing empty pieces: what `split` keeps, joined back,
      is the input minus a final run of separators, and its last piece is
      not empty unless the input is. */
  lemma SplitDropsTrailingEmpty(s: string, c: char)
    ensures s != "" && Split(s, c) != [] ==> Split(s, c)[|Split(s, c)| - 1] != ""
    ensures Split(s, c) != [] ==>
      Join(c, Split(s, c)) <= s && AllChar(s[|Join(c, Split(s, c))|..], c)
  {
    var r := Split(s, c);
    if c in s && r != [] {
      var raw := RawSplit(s, c);
      var e := raw[|r|..];
      assert raw == r + e;
      assert AllEmpty(e) by {
        forall k | 0 <= k < |e| ensures e[k] == "" { assert e[k] == raw[|r| + k]; }
      }
      JoinTrailingEmpty(c, r, e);
      assert s == Join(c, r) + Repeat(c, |e|);
      assert s[|Join(c, r)|..] == Repeat(c, |e|);
    } else if c !in s {
      assert Join(c, [s]) == s;
    }
  }

  /** What `Split` promises: no piece holds the separator; the result is
      empty exactly for a non-empty run of separators; the first piece is the
      text before the first separator; and re-joining the first pieces gives
      back a prefix of the input. */
  lemma SplitShape(s: string, c: char)
    ensures forall k :: 0 <= k < |Split(s, c)| ==> c !in Split(s, c)[k]
    ensures Split(s, c) == [] <==> |s| > 0 && AllChar(s, c)
    ensures Split(s, c) != [] ==> Split(s, c)[0] == Before(s, c)
    ensures forall j :: 0 <= j < |Split(s, c)| ==> JoinedPrefix(c, Split(s, c), j) <= s
    ensures s != "" && Split(s, c) != [] ==> Split(s, c)[|Split(s, c)| - 1] != ""
    ensures Split(s, c) != [] ==>
      Join(c, Split(s, c)) <= s && AllChar(s[|Join(c, Split(s, c))|..], c)
  {
    SplitPiecesAvoid(s, c);
    SplitEmptyIff(s, c);
    SplitFirst(s, c);
    SplitPrefixes(s, c);
    SplitDropsTrailingEmpty(s, c);
  }

  /** A name ending in the separator, such as `dir/`, splits into the
      pieces before it only: the trailing empty piece is dropped. */
  lemma TrailingSeparatorDropped(dir: string, c: char)
    requires dir != "" && c !in dir
    ensures Split(dir + [c], c) == [dir]
  {
    var s := dir + [c];
    SplitShape(s, c);
    assert !AllChar(s, c) by { assert s[0] == dir[0]; }
    var r := Split(s, c);
    var b := Before(s, c);
    assert b == dir by {
      assert forall k :: 0 <= k < |dir| ==> s[k] == dir[k];
      assert b == s[..|b|];
      assert s[..|dir|] == dir;
    }
    JoinOfSeveral(c, r);
  }

  /** `split` undoes `String.join` when no piece holds the separator and
      the last piece is not empty (an empty last piece would be dropped). */
  lemma SplitJoinRoundTrip(c: char, parts: seq<string>)
    requires |parts| >= 1 && parts[|parts| - 1] != ""
    requires forall k :: 0 <= k < |parts| ==> c !in parts[k]
    ensures Split(Join(c, parts), c) == parts
  {
    RawSplitJoin(c, parts);
    var s := Join(c, parts);
    if c !in s {
      RawSplitNoSeparator(s, c);
    }
  }

  /** Java's `split("\\s+")` before trailing empties are dropped: the pieces
      between maximal runs of whitespace. A leading run yields a leading
      empty piece, a trailing run a trailing one. */
  function RawSplitRuns(s: string): (r: seq<string>)
    ensures |r| >= 1
    ensures forall k :: 0 <= k < |r| ==> NoWs(r[k])
    ensures forall k :: 0 < k < |r| - 1 ==> r[k] != ""
    ensures |s| > 0 ==> (r[0] == "" <==> IsWs(s[0]))
    ensures forall k, i :: 0 <= k < |r| && 0 <= i < |r[k]| ==> r[k][i] in s
    decreases |s|
  {
    if |s| == 0 then [""]
    else
      var rest := RawSplitRuns(s[1..]);
      assert forall ch :: ch in s[1..] ==> ch in s;
      if IsWs(s[0]) then
        if |s| > 1 && IsWs(s[1]) then rest else [""] + rest
      else
        var r := [[s[0]] + rest[0]] + rest[1..];
        assert forall i :: 0 < i < |r[0]| ==> r[0][i] == rest[0][i - 1];
        r
  }

  /** `s.split("\\s+")`. */
  function SplitWs(s: string): (r: seq<string>)
    ensures forall k :: 0 <= k < |r| ==> NoWs(r[k])
    ensures forall k :: 0 < k < |r| ==> r[k] != ""
    ensures |s| > 0 && !IsWs(s[0]) ==> forall k :: 0 <= k < |r| ==> r[k] != ""
    ensures forall k, i :: 0 <= k < |r| && 0 <= i < |r[k]| ==> r[k][i] in s
  {
    if !HasWs(s) then [s]
    else
      var raw := RawSplitRuns(s);
      var r := DropTrailingEmpty(raw);
      assert forall k :: 0 <= k < |r| ==> r[k] == raw[k];
      r
  }

  /** Every maximal run of whitespace replaced by one space. */
  function CollapseWs(s: string): (r: string)
    ensures forall k :: 0 <= k < |r| ==> (IsWs(r[k]) ==> r[k] == ' ')
    decreases |s|
  {
    if |s| == 0 then ""
    else if IsWs(s[0]) then
      if |s| > 1 && IsWs(s[1]) then CollapseWs(s[1..]) else " " + CollapseWs(s[1..])
    else [s[0]] + CollapseWs(s[1..])
  }

  lemma {:induction false} CollapseHasSpace(s: string)
    ensures HasWs(s) <==> ' ' in CollapseWs(s)
    ensures |s| > 0 && IsWs(s[0]) ==> CollapseWs(s)[0] == ' '
    decreases |s|
  {
    if |s| > 0 {
      CollapseHasSpace(s[1..]);
      if HasWs(s[1..]) {
        var k :| 0 <= k < |s[1..]| && IsWs(s[1..][k]);
        assert IsWs(s[k + 1]);
      }
      if HasWs(s) && !IsWs(s[0]) {
        var k :| 0 <= k < |s| && IsWs(s[k]);
        assert IsWs(s[1..][k - 1]);
      }
      if !IsWs(s[0]) {
        assert CollapseWs(s)[1..] == CollapseWs(s[1..]);
        assert s[0] != ' ';
      }
    }
  }

  lemma {:induction false} RawRunsAreCollapsedSplit(s: string)
    ensures RawSplitRuns(s) == RawSplit(CollapseWs(s), ' ')
    decreases |s|
  {
    if |s| > 0 {
      RawRunsAreCollapsedSplit(s[1..]);
      var t := CollapseWs(s[1..]);
      if IsWs(s[0]) {
        if !(|s| > 1 && IsWs(s[1])) {
          assert (" " + t)[1..] == t;
        }
      } else {
        assert ([s[0]] + t)[1..] == t;
      }
    }
  }

  /** Splitting on whitespace runs is splitting on single spaces once every
      run has been collapsed to one space. */
  lemma SplitWsIsCollapsedSplit(s: string)
    ensures SplitWs(s) == Split(CollapseWs(s), ' ')
  {
    CollapseHasSpace(s);
    RawRunsAreCollapsedSplit(s);
    if !HasWs(s) {
      assert CollapseWs(s) == s by { NoWsCollapse(s); }
    }
  }

  lemma {:induction false} NoWsCollapse(s: string)
    requires !HasWs(s)
    ensures CollapseWs(s) == s
    decreases |s|
  {
    if |s| > 0 {
      assert !IsWs(s[0]);
      assert forall k :: 0 <= k < |s[1..]| ==> s[1..][k] == s[k + 1];
      NoWsCollapse(s[1..]);
    }
  }

  /** Collapsing leaves a whitespace-free lead untouched. */
  lemma {:induction false} CollapseWordPrefix(w: string, s: string)
    requires NoWs(w)
    ensures CollapseWs(w + s) == w + CollapseWs(s)
    decreases |w|
  {
    if |w| > 0 {
      assert (w + s)[0] == w[0] && !IsWs(w[0]);
      assert (w + s)[1..] == w[1..] + s;
      CollapseWordPrefix(w[1..], s);
      assert [w[0]] + w[1..] == w;
    } else {
      assert w + s == s;
    }
  }

  /** Single-space text with no leading, trailing or doubled whitespace is
      already collapsed. */
  lemma {:induction false} CollapseJoinedWords(words: seq<string>)
    requires |words| >= 1
    requires forall k :: 0 <= k < |words| ==> words[k] != "" && NoWs(words[k])
    ensures CollapseWs(Join(' ', words)) == Join(' ', words)
    ensures !IsWs(Join(' ', words)[0])
    decreases |words|
  {
    if |words| == 1 {
      CollapseWordPrefix(words[0], "");
      assert words[0] + "" == words[0];
      assert !IsWs(words[0][0]);
    } else {
      var rest := Join(' ', words[1..]);
      CollapseJoinedWords(words[1..]);
      assert (" " + rest)[1..] == rest;
      assert CollapseWs(" " + rest) == " " + rest;
      CollapseWordPrefix(words[0], " " + rest);
      assert Join(' ', words) == words[0] + (" " + rest);
    }
  }

  /** `split("\\s+")` on words joined by single spaces gives the words back. */
  lemma SplitWsJoinedWords(words: seq<string>)
    requires |words| >= 1
    requires forall k :: 0 <= k < |words| ==> words[k] != "" && NoWs(words[k])
    ensures SplitWs(Join(' ', words)) == words
  {
    CollapseJoinedWords(words);
    SplitWsIsCollapsedSplit(Join(' ', words));
    forall k | 0 <= k < |words| ensures ' ' !in words[k] {
      assert forall i :: 0 <= i < |words[k]| ==> !IsWs(words[k][i]);
    }
    SplitJoinRoundTrip(' ', words);
  }

  predicate AllWs(s: string) {
    forall k :: 0 <= k < |s| ==> IsWs(s[k])
  }

  lemma HasWsCons(s: string)
    requires |s| > 0
    ensures HasWs(s) <==> IsWs(s[0]) || HasWs(s[1..])
  {
    if HasWs(s) && !IsWs(s[0]) {
      var k :| 0 <= k < |s| && IsWs(s[k]);
      assert s[1..][k - 1] == s[k];
    }
    if HasWs(s[1..]) {
      var k :| 0 <= k < |s[1..]| && IsWs(s[1..][k]);
      assert s[k + 1] == s[1..][k];
    }
  }

  /** `RawSplitRuns` yields one piece exactly when there is no whitespace,
      and that piece is the whole string. */
  lemma {:induction false} RawRunsSingle(s: string)
    ensures |RawSplitRuns(s)| == 1 <==> !HasWs(s)
    ensures !HasWs(s) ==> RawSplitRuns(s) == [s]
    decreases |s|
  {
    if |s| > 0 {
      var t := s[1..];
      HasWsCons(s);
      RawRunsSingle(t);
      if IsWs(s[0]) && |s| > 1 && IsWs(s[1]) {
        HasWsCons(t);
      } else if !IsWs(s[0]) && !HasWs(t) {
        Uncons(s);
      }
    }
  }

  /** `last` ends `s`, and when `s` holds whitespace a whitespace character
      comes right before it. */
  predicate EndsAfterWs(s: string, last: string) {
    && |last| <= |s| && s[|s| - |last|..] == last
    && (HasWs(s) ==> |last| < |s| && IsWs(s[|s| - |last| - 1]))
  }

  /** Ending `s[1..]` after whitespace carries over to `s`. */
  lemma EndsAfterWsCons(s: string, last: string)
    requires |s| > 0 && HasWs(s[1..]) && EndsAfterWs(s[1..], last)
    ensures EndsAfterWs(s, last)
  {
    var t := s[1..];
    HasWsCons(s);
    assert s[|s| - |last|..] == t[|t| - |last|..];
    assert s[|s| - |last| - 1] == t[|t| - |last| - 1];
  }

  /** `RawSplitRuns` on a string starting with whitespace: the pieces of
      the rest, behind an empty piece unless the rest starts with whitespace too. */
  lemma RawRunsWsCons(s: string)
    requires |s| > 0 && IsWs(s[0])
    ensures RawSplitRuns(s) == if |s| > 1 && IsWs(s[1]) then RawSplitRuns(s[1..]) else [""] + RawSplitRuns(s[1..])
  {
  }

  /** `RawSplitRuns` on a string starting with a word character: that
      character joins the first piece of the rest. */
  lemma RawRunsWordCons(s: string)
    requires |s| > 0 && !IsWs(s[0])
    ensures var rest := RawSplitRuns(s[1..]);
      RawSplitRuns(s) == [[s[0]] + rest[0]] + rest[1..]
  {
  }

  /** The last piece of `RawSplitRuns(s)` in terms of that of `s[1..]`. */
  lemma RawRunsLastCons(s: string)
    requires |s| > 0
    ensures var rest := RawSplitRuns(s[1..]);
      RawSplitRuns(s)[|RawSplitRuns(s)| - 1] ==
        if IsWs(s[0]) || |rest| > 1 then rest[|rest| - 1] else [s[0]] + rest[0]
  {
    if IsWs(s[0]) {
      RawRunsWsCons(s);
    } else {
      RawRunsWordCons(s);
    }
  }

  /** A string without whitespace ends with itself after no whitespace. */
  lemma EndsAfterWsWhole(s: string)
    requires !HasWs(s)
    ensures EndsAfterWs(s, s)
  {
    assert s[|s| - |s|..] == s;
  }

  /** A string starting with whitespace ends with its tail right after it. */
  lemma EndsAfterWsFirst(s: string)
    requires |s| > 0 && IsWs(s[0])
    ensures EndsAfterWs(s, s[1..])
  {
    assert s[|s| - |s[1..]|..] == s[1..];
  }

  /** The text after the last whitespace character, or the whole string
      when it has none, computed from the front as `RawSplitRuns` is. */
  function AfterLastWs(s: string): string
    decreases |s|
  {
    if |s| == 0 then ""
    else if IsWs(s[0]) || HasWs(s[1..]) then AfterLastWs(s[1..])
    else s
  }

  /** `AfterLastWs` ends the string right after its last whitespace. */
  lemma {:induction false} AfterLastWsEnds(s: string)
    ensures EndsAfterWs(s, AfterLastWs(s))
    decreases |s|
  {
    if |s| == 0 {
      EndsAfterWsWhole(s);
    } else {
      var t := s[1..];
      HasWsCons(s);
      AfterLastWsEnds(t);
      if HasWs(t) {
        EndsAfterWsCons(s, AfterLastWs(t));
      } else if IsWs(s[0]) {
        EndsAfterWsWhole(t);
        EndsAfterWsFirst(s);
      } else {
        EndsAfterWsWhole(s);
      }
    }
  }

  /** The last piece of `RawSplitRuns` is `AfterLastWs`. */
  lemma {:induction false} RawRunsLastIs(s: string)
    ensures RawSplitRuns(s)[|RawSplitRuns(s)| - 1] == AfterLastWs(s)
    decreases |s|
  {
    if |s| > 0 {
      var t := s[1..];
      RawRunsLastIs(t);
      RawRunsLastCons(s);
      RawRunsSingle(t);
      if !IsWs(s[0]) && !HasWs(t) {
        Uncons(s);
      }
    }
  }

  /** The last piece of `RawSplitRuns` is the text after the last
      whitespace character, or the whole string when it has none. */
  lemma RawRunsLast(s: string)
    ensures EndsAfterWs(s, RawSplitRuns(s)[|RawSplitRuns(s)| - 1])
  {
    RawRunsLastIs(s);
    AfterLastWsEnds(s);
  }

  /** A non-empty run of whitespace splits into two empty pieces. */
  lemma {:induction false} RawRunsAllWs(w: string)
    requires |w| > 0 && AllWs(w)
    ensures RawSplitRuns(w) == ["", ""]
    decreases |w|
  {
    if |w| > 1 {
      RawRunsAllWs(w[1..]);
    }
  }

  /** Whitespace after a word adds one trailing empty piece. */
  lemma {:induction false} RawRunsTrailingWs(t: string, w: string)
    requires |t| > 0 && !IsWs(t[|t| - 1])
    requires |w| > 0 && AllWs(w)
    ensures RawSplitRuns(t + w) == RawSplitRuns(t) + [""]
    decreases |t|
  {
    var s := t + w;
    assert s[0] == t[0] && s[1..] == t[1..] + w;
    if |t| == 1 {
      RawRunsAllWs(w);
      assert t[1..] == "";
      EmptyLeft(w);
    } else {
      var u := t[1..];
      RawRunsTrailingWs(u, w);
      assert s[1] == t[1];
      var x := RawSplitRuns(u);
      if IsWs(t[0]) {
        if !IsWs(t[1]) {
          Assoc([""], x, [""]);
        }
      } else {
        assert (x + [""])[0] == x[0] && (x + [""])[1..] == x[1..] + [""];
        Assoc([[t[0]] + x[0]], x[1..], [""]);
      }
    }
  }

  /** Number of whitespace characters ending `s`. */
  function TrailingWs(s: string): (n: nat)
    ensures n <= |s|
    ensures AllWs(s[|s| - n..])
    ensures n == |s| || !IsWs(s[|s| - n - 1])
    decreases |s|
  {
    if |s| == 0 || !IsWs(s[|s| - 1]) then 0
    else
      var n := TrailingWs(s[..|s| - 1]);
      assert s[|s| - (n + 1)..] == s[..|s| - 1][|s| - 1 - n..] + [s[|s| - 1]];
      n + 1
  }

  /** A string ending in a non-whitespace character splits into its raw
      pieces, the last of them non-empty. */
  lemma SplitWsEndingInWord(t: string)
    requires |t| > 0 && !IsWs(t[|t| - 1])
    ensures SplitWs(t) == RawSplitRuns(t)
    ensures RawSplitRuns(t)[|RawSplitRuns(t)| - 1] != ""
  {
    RawRunsLast(t);
    RawRunsSingle(t);
  }

  /** With two tokens or more, the text is not all whitespace. */
  lemma SplitWsNotAllWs(s: string)
    requires |SplitWs(s)| >= 2
    ensures TrailingWs(s) < |s|
  {
    if TrailingWs(s) == |s| {
      assert HasWs(s);
      assert s[|s| - TrailingWs(s)..] == s;
      RawRunsAllWs(s);
      assert false;
    }
  }

  /** Whitespace after a word does not change the tokens. */
  lemma SplitWsAfterWord(t: string, w: string)
    requires |t| > 0 && !IsWs(t[|t| - 1]) && AllWs(w)
    ensures SplitWs(t + w) == RawSplitRuns(t)
  {
    SplitWsEndingInWord(t);
    if |w| > 0 {
      RawRunsTrailingWs(t, w);
      assert HasWs(t + w) by { assert IsWs((t + w)[|t|]); }
      var raw := RawSplitRuns(t) + [""];
      assert raw[..|raw| - 1] == RawSplitRuns(t);
    } else {
      EmptyRight(t);
    }
  }

  /** A text that is not all whitespace is a word followed by its
      trailing whitespace. */
  lemma WordAndTrailingWs(s: string) returns (t: string, w: string)
    requires TrailingWs(s) < |s|
    ensures s == t + w && |t| > 0 && !IsWs(t[|t| - 1]) && AllWs(w)
  {
    var n := TrailingWs(s);
    t, w := s[..|s| - n], s[|s| - n..];
    assert t[|t| - 1] == s[|s| - n - 1];
    assert s == t + w;
  }

  /** A text with at least two tokens is a word followed by whitespace
      only, and its tokens are the raw pieces of that word. */
  lemma WordThenWs(s: string) returns (t: string, w: string)
    requires |SplitWs(s)| >= 2
    ensures s == t + w && |t| > 0 && !IsWs(t[|t| - 1]) && AllWs(w)
    ensures SplitWs(s) == RawSplitRuns(t)
  {
    SplitWsNotAllWs(s);
    t, w := WordAndTrailingWs(s);
    SplitWsAfterWord(t, w);
  }

  /** The last raw piece of a string holding whitespace follows a
      whitespace character. */
  lemma RawRunsLastWord(t: string) returns (p: string)
    requires |RawSplitRuns(t)| >= 2
    ensures t == p + RawSplitRuns(t)[|RawSplitRuns(t)| - 1] && |p| > 0 && IsWs(p[|p| - 1])
  {
    RawRunsSingle(t);
    RawRunsLast(t);
    var last := RawSplitRuns(t)[|RawSplitRuns(t)| - 1];
    p := t[..|t| - |last|];
    assert t == p + last;
  }

  /** With at least two tokens, the last token of `split("\\s+")` follows a
      whitespace character and is followed by whitespace only: it is the
      last word of the text. */
  lemma SplitWsLastToken(s: string)
    requires |SplitWs(s)| >= 2
    ensures exists p, q :: s == p + SplitWs(s)[|SplitWs(s)| - 1] + q && |p| > 0 && IsWs(p[|p| - 1]) && AllWs(q)
  {
    var t, w := WordThenWs(s);
    var p := RawRunsLastWord(t);
    var last := RawSplitRuns(t)[|RawSplitRuns(t)| - 1];
    Assoc(p, last, w);
    assert s == p + last + w;
  }
}
