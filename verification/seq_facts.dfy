/** Reassociation and splitting facts about sequence concatenation, stated
    for any element type so that using them never compares elements. */
module SeqFacts {

  lemma Assoc<T>(a: seq<T>, b: seq<T>, c: seq<T>)
    ensures a + b + c == a + (b + c)
  {
  }

  lemma EmptyRight<T>(a: seq<T>)
    ensures a + [] == a
  {
  }

  lemma HeadTail<T>(x: T, a: seq<T>, b: seq<T>)
    ensures ([x] + a + b)[0] == x && ([x] + a + b)[1..] == a + b
  {
  }

  lemma ConsTail<T>(x: T, a: seq<T>)
    ensures ([x] + a)[0] == x && ([x] + a)[1..] == a
  {
  }

  lemma EmptyLeft<T>(a: seq<T>)
    ensures [] + a == a
  {
  }

  lemma SplitAt<T>(s: seq<T>, k: nat)
    requires k < |s|
    ensures s == s[..k] + [s[k]] + s[k + 1..]
    ensures s[k..] == [s[k]] + s[k + 1..]
  {
  }

  lemma Uncons<T>(s: seq<T>)
    requires |s| > 0
    ensures s == [s[0]] + s[1..]
  {
  }

  lemma ConsEqual<T>(a: seq<T>, b: seq<T>)
    requires |a| > 0 && |b| > 0 && a[0] == b[0] && a[1..] == b[1..]
    ensures a == b
  {
    Uncons(a);
    Uncons(b);
  }

  lemma MultisetTail<T>(s: seq<T>)
    requires |s| > 0
    ensures multiset(s[1..]) == multiset(s) - multiset{s[0]}
  {
    Uncons(s);
  }

  lemma InMultiset<T>(s: seq<T>, x: T)
    requires x in multiset(s)
    ensures exists i :: 0 <= i < |s| && s[i] == x
  {
  }

  lemma SnocInit<T>(s: seq<T>)
    requires |s| > 0
    ensures s == s[..|s| - 1] + [s[|s| - 1]]
  {
  }

  lemma MultisetInsert<T>(x: seq<T>, e: T, y: seq<T>)
    ensures multiset(x + [e] + y) == multiset(x + y) + multiset{e}
  {
  }

  /** `f` applied to every element, in order. */
  function MapSeq<A, B>(f: A -> B, s: seq<A>): (r: seq<B>)
    ensures |r| == |s|
    ensures forall i :: 0 <= i < |s| ==> r[i] == f(s[i])
  {
    if |s| == 0 then [] else [f(s[0])] + MapSeq(f, s[1..])
  }

  lemma MapSeqOne<A, B>(f: A -> B, x: A)
    ensures MapSeq(f, [x]) == [f(x)]
  {
    var r := MapSeq(f, [x]);
    assert |r| == 1 && r[0] == f(x);
  }

  lemma {:induction false} MapSeqAppend<A, B>(f: A -> B, a: seq<A>, b: seq<A>)
    ensures MapSeq(f, a + b) == MapSeq(f, a) + MapSeq(f, b)
    decreases |a|
  {
    if |a| == 0 {
      assert a + b == b;
    } else {
      assert (a + b)[1..] == a[1..] + b;
      MapSeqAppend(f, a[1..], b);
    }
  }

  lemma MapSeqCons<A, B>(f: A -> B, a: seq<A>)
    requires |a| > 0
    ensures multiset(MapSeq(f, a)) == multiset(MapSeq(f, a[1..])) + multiset{f(a[0])}
  {
    Uncons(a);
    MapSeqAppend(f, [a[0]], a[1..]);
    MapSeqOne(f, a[0]);
  }

  /** Taking one element out of a sequence takes its image out of the
      mapped sequence. */
  lemma MapSeqRemove<A, B>(f: A -> B, pre: seq<A>, x: A, post: seq<A>)
    ensures multiset(MapSeq(f, pre + [x] + post)) == multiset(MapSeq(f, pre + post)) + multiset{f(x)}
  {
    MapSeqAppend(f, pre + [x], post);
    MapSeqAppend(f, pre, [x]);
    MapSeqOne(f, x);
    MultisetInsert(MapSeq(f, pre), f(x), MapSeq(f, post));
    MapSeqAppend(f, pre, post);
  }

  /** Mapping a permutation gives a permutation. */
  lemma {:induction false} MapSeqPermutation<A, B>(f: A -> B, a: seq<A>, b: seq<A>)
    requires multiset(a) == multiset(b)
    ensures multiset(MapSeq(f, a)) == multiset(MapSeq(f, b))
    decreases |a|
  {
    if |a| == 0 {
      assert |b| == |multiset(b)| == 0;
    } else {
      var x := a[0];
      assert x in multiset(b);
      InMultiset(b, x);
      var j :| 0 <= j < |b| && b[j] == x;
      var pre, post := b[..j], b[j + 1..];
      SplitAt(b, j);
      MultisetTail(a);
      MultisetInsert(pre, x, post);
      MapSeqPermutation(f, a[1..], pre + post);
      MapSeqRemove(f, pre, x, post);
      MapSeqCons(f, a);
    }
  }
}
