/** Order-preserving operations on sequences: the row selections the script
    makes with boolean masks and `unique()` are all built from these. */
module Seqs {

  /** `a` is obtained from `b` by deleting elements; the order of what remains is kept. */
  predicate IsSubseq<T(==)>(a: seq<T>, b: seq<T>)
    decreases |b|
  {
    |a| <= |b| &&
    (a == [] || (a[0] == b[0] && IsSubseq(a[1..], b[1..])) || IsSubseq(a, b[1..]))
  }

  lemma {:induction false} IsSubseqTransitive<T>(a: seq<T>, b: seq<T>, c: seq<T>)
    requires IsSubseq(a, b) && IsSubseq(b, c)
    ensures IsSubseq(a, c)
    decreases |c|
  {
    if a != [] {
      if IsSubseq(b, c[1..]) {
        IsSubseqTransitive(a, b, c[1..]);
      } else if a[0] == b[0] && IsSubseq(a[1..], b[1..]) {
        IsSubseqTransitive(a[1..], b[1..], c[1..]);
      } else {
        IsSubseqTransitive(a, b[1..], c[1..]);
      }
    }
  }

  /** The elements of `s` that satisfy `keep`, in their original order
      (a pandas boolean mask `df[mask]`). */
  function Filter<T(==)>(s: seq<T>, keep: T -> bool): (r: seq<T>)
    ensures forall x | x in r :: x in s && keep(x)
    ensures forall x | x in s && keep(x) :: x in r
    decreases |s|
  {
    if s == [] then []
    else
      assert s == [s[0]] + s[1..];
      if keep(s[0]) then [s[0]] + Filter(s[1..], keep) else Filter(s[1..], keep)
  }

  /** A filter deletes elements without reordering the rest. */
  lemma {:induction false} FilterIsSubseq<T>(s: seq<T>, keep: T -> bool)
    ensures IsSubseq(Filter(s, keep), s)
    decreases |s|
  {
    if s != [] {
      FilterIsSubseq(s[1..], keep);
      FilterHead(s, keep);
    }
  }

  /** A filter keeps every copy of an element it accepts and no copy of one it rejects. */
  lemma {:induction false} FilterCounts<T>(s: seq<T>, keep: T -> bool)
    ensures forall x | x in s :: multiset(Filter(s, keep))[x] == if keep(x) then multiset(s)[x] else 0
    decreases |s|
  {
    if s != [] {
      var t := s[1..];
      assert s == [s[0]] + t;
      FilterCounts(t, keep);
      FilterHead(s, keep);
      forall x | x in s
        ensures multiset(Filter(s, keep))[x] == if keep(x) then multiset(s)[x] else 0
      {
        if x !in t {
          assert x !in Filter(t, keep);
        }
      }
    }
  }

  /** A filter that every element passes removes nothing. */
  lemma {:induction false} FilterKeepsAll<T>(s: seq<T>, keep: T -> bool)
    requires forall i :: 0 <= i < |s| ==> keep(s[i])
    ensures Filter(s, keep) == s
    decreases |s|
  {
    if s != [] {
      FilterKeepsAll(s[1..], keep);
    }
  }

  /** Filtering distributes over concatenation. */
  lemma {:induction false} FilterAppend<T>(a: seq<T>, b: seq<T>, keep: T -> bool)
    ensures Filter(a + b, keep) == Filter(a, keep) + Filter(b, keep)
    decreases |a|
  {
    if a == [] {
      assert a + b == b;
    } else {
      FilterAppend(a[1..], b, keep);
      FilterHead(a, keep);
      FilterHead(a + b, keep);
      assert (a + b)[1..] == a[1..] + b;
    }
  }

  /** Filtering a non-empty sequence decides its head and filters its tail. */
  lemma FilterHead<T>(s: seq<T>, keep: T -> bool)
    requires s != []
    ensures Filter(s, keep) == (if keep(s[0]) then [s[0]] else []) + Filter(s[1..], keep)
  {
  }

  predicate NoDuplicates<T(==)>(s: seq<T>)
  {
    forall i, j :: 0 <= i < j < |s| ==> s[i] != s[j]
  }

  /** The position of the first occurrence of `x` in `s`. */
  function FirstIndex<T(==)>(s: seq<T>, x: T): (i: nat)
    requires x in s
    ensures i < |s| && s[i] == x && x !in s[..i]
    decreases |s|
  {
    if s[0] == x then 0
    else
      var k := FirstIndex(s[1..], x);
      assert s[..k + 1] == [s[0]] + s[1..][..k];
      k + 1
  }

  /** Extending a sequence does not move the first occurrence of an element it already had. */
  lemma FirstIndexOfPrefix<T>(s: seq<T>, n: nat, k: nat)
    requires k < n <= |s|
    ensures s[k] in s[..n]
    ensures FirstIndex(s, s[k]) == FirstIndex(s[..n], s[k])
  {
    assert s[..n][k] == s[k];
    var j := FirstIndex(s[..n], s[k]);
    assert s[..n][..j] == s[..j];
  }

  /** An element that occurs only at the end has its first occurrence there. */
  lemma FirstIndexOfLast<T>(s: seq<T>)
    requires s != [] && s[|s| - 1] !in s[..|s| - 1]
    ensures FirstIndex(s, s[|s| - 1]) == |s| - 1
  {
  }

  /** The distinct elements of `s`, each at the place of its first occurrence
      (pandas `unique()`). */
  function Dedup<T(==)>(s: seq<T>): (r: seq<T>)
    ensures NoDuplicates(r)
    ensures forall x | x in r :: x in s
    ensures forall x | x in s :: x in r
    ensures forall i, j :: 0 <= i < j < |r| ==> FirstIndex(s, r[i]) < FirstIndex(s, r[j])
    decreases |s|
  {
    if s == [] then []
    else
      var init := s[..|s| - 1];
      var last := s[|s| - 1];
      assert s == init + [last];
      var d := Dedup(init);
      DedupFirstIndicesAgree(s, d);
      if last in d then d
      else
        FirstIndexOfLast(s);
        d + [last]
  }

  lemma DedupFirstIndicesAgree<T>(s: seq<T>, d: seq<T>)
    requires s != [] && forall i :: 0 <= i < |d| ==> d[i] in s[..|s| - 1]
    ensures forall i :: 0 <= i < |d| ==>
      d[i] in s && FirstIndex(s, d[i]) == FirstIndex(s[..|s| - 1], d[i]) < |s| - 1
  {
    forall i | 0 <= i < |d|
      ensures d[i] in s && FirstIndex(s, d[i]) == FirstIndex(s[..|s| - 1], d[i]) < |s| - 1
    {
      FirstIndexInInit(s, d[i]);
    }
  }

  /** An element of all but the last position keeps its first occurrence there. */
  lemma FirstIndexInInit<T>(s: seq<T>, x: T)
    requires s != [] && x in s[..|s| - 1]
    ensures x in s && FirstIndex(s, x) == FirstIndex(s[..|s| - 1], x) < |s| - 1
  {
    var init := s[..|s| - 1];
    var k := FirstIndex(init, x);
    assert k < |init| && init[k] == x;
    assert s[k] == x;
    FirstIndexOfPrefix(s, |s| - 1, k);
  }

  /** The first `n` elements of `s` (Python's `s[:n]`, which never fails). */
  function Take<T>(s: seq<T>, n: nat): (r: seq<T>)
    ensures |r| == if n < |s| then n else |s|
    ensures r == s[..|r|]
  {
    if n < |s| then s[..n] else s
  }
}
