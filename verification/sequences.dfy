/** Array filtering as JavaScript's `Array.prototype.filter` does it, with the facts the model uses. */
module Sequences {

  /** The elements of `s` that satisfy `keep`, in their original order. */
  function Filter<T>(s: seq<T>, keep: T -> bool): (r: seq<T>)
    ensures |r| <= |s|
    ensures forall i :: 0 <= i < |r| ==> r[i] in s && keep(r[i])
    ensures forall i :: 0 <= i < |s| && keep(s[i]) ==> s[i] in r
  {
    if s == [] then []
    else if keep(s[0]) then [s[0]] + Filter(s[1..], keep)
    else Filter(s[1..], keep)
  }

  /** `sub` is `s` with some elements left out and the rest in their original order. */
  predicate IsSubsequence<T(==)>(sub: seq<T>, s: seq<T>)
    decreases |s|
  {
    if sub == [] then true
    else if s == [] then false
    else if sub[0] == s[0] then IsSubsequence(sub[1..], s[1..])
    else IsSubsequence(sub, s[1..])
  }

  /** Filtering keeps the surviving elements in their relative order and keeps
      every copy of each of them: nothing that passes the test is lost. */
  lemma {:induction false} FilterKeepsOrderAndCopies<T>(s: seq<T>, keep: T -> bool)
    ensures IsSubsequence(Filter(s, keep), s)
    ensures forall x :: keep(x) ==> multiset(Filter(s, keep))[x] == multiset(s)[x]
    ensures forall x :: !keep(x) ==> multiset(Filter(s, keep))[x] == 0
  {
    if s != [] {
      FilterKeepsOrderAndCopies(s[1..], keep);
      assert s == [s[0]] + s[1..];
      if keep(s[0]) {
        var r := Filter(s, keep);
        assert r == [s[0]] + Filter(s[1..], keep);
        assert r[1..] == Filter(s[1..], keep);
      } else {
        SubsequenceOfTail(Filter(s[1..], keep), s);
      }
    }
  }

  /** A subsequence of the tail is a subsequence of the whole. */
  lemma {:induction false} SubsequenceOfTail<T>(sub: seq<T>, s: seq<T>)
    requires s != [] && IsSubsequence(sub, s[1..])
    ensures IsSubsequence(sub, s)
    decreases |s|, 0
  {
    if sub != [] && sub[0] == s[0] {
      SubsequenceDropHead(sub, s[1..]);
    }
  }

  /** Dropping the head of a subsequence keeps it a subsequence. */
  lemma {:induction false} SubsequenceDropHead<T>(sub: seq<T>, s: seq<T>)
    requires sub != [] && IsSubsequence(sub, s)
    ensures IsSubsequence(sub[1..], s)
    decreases |s|, 1
  {
    if sub[0] != s[0] {
      SubsequenceDropHead(sub, s[1..]);
      SubsequenceOfTail(sub[1..], s);
    } else {
      SubsequenceOfTail(sub[1..], s);
    }
  }

  /** When every element passes, filtering returns the sequence unchanged. */
  lemma {:induction false} FilterAllKept<T>(s: seq<T>, keep: T -> bool)
    requires forall x :: x in s ==> keep(x)
    ensures Filter(s, keep) == s
  {
    if s != [] {
      FilterAllKept(s[1..], keep);
      assert s == [s[0]] + s[1..];
    }
  }

  /** Concatenation regrouped, for the proofs that need the step spelled out. */
  lemma ConcatAssoc<T>(x: seq<T>, y: seq<T>, z: seq<T>)
    ensures x + (y + z) == x + y + z
  {
  }

  /** A prefix stays a prefix when more is appended. */
  lemma PrefixExtends<T>(p: seq<T>, x: seq<T>, y: seq<T>)
    requires p <= x
    ensures p <= x + y
  {
    assert (x + y)[..|p|] == x[..|p|];
  }

  /** An element of the back part is an element of the whole. */
  lemma InConcatRight<T>(x: seq<T>, y: seq<T>, e: T)
    requires e in y
    ensures e in x + y
  {
    var k :| 0 <= k < |y| && y[k] == e;
    assert (x + y)[|x| + k] == e;
  }

  /** Filtering distributes over concatenation. */
  lemma {:induction false} FilterConcat<T>(a: seq<T>, b: seq<T>, keep: T -> bool)
    ensures Filter(a + b, keep) == Filter(a, keep) + Filter(b, keep)
  {
    if a != [] {
      FilterConcat(a[1..], b, keep);
      assert (a + b)[1..] == a[1..] + b;
    } else {
      assert a + b == b;
    }
  }

  /** An element of a list other than its head is in its tail. */
  lemma InTail<T>(h: T, t: seq<T>, l: seq<T>, e: T)
    requires l == [h] + t && e in l && e != h
    ensures e in t
  {
    var k :| 0 <= k < |l| && l[k] == e;
    assert t[k - 1] == e;
  }

  /** An element of the tail is in the list. */
  lemma TailIn<T>(h: T, t: seq<T>, l: seq<T>, e: T)
    requires l == [h] + t && e in t
    ensures e in l
  {
    InConcatRight([h], t, e);
  }
}
