/** Sequence facts shared by the roster builder and the reconciler. */
module Seqs {

  /** The set of values occurring in `s`. */
  function Elems<T>(s: seq<T>): set<T>
  {
    set x | x in s
  }

  /** No value occurs twice in `s`. */
  predicate NoDup<T(==)>(s: seq<T>)
  {
    forall i, j :: 0 <= i < j < |s| ==> s[i] != s[j]
  }

  /** The position of the first occurrence of `x` in `s`. */
  function FirstIndex<T(==)>(s: seq<T>, x: T): (i: nat)
    requires x in s
    ensures i < |s| && s[i] == x
    ensures forall j :: 0 <= j < i ==> s[j] != x
  {
    if s[0] == x then 0 else 1 + FirstIndex(s[1..], x)
  }

  /** A value seen in a prefix is first seen at the same position in the whole sequence. */
  lemma FirstIndexPrefix<T>(s: seq<T>, n: nat, x: T)
    requires n <= |s| && x in s[..n]
    ensures FirstIndex(s, x) == FirstIndex(s[..n], x)
  {
    var a, b := FirstIndex(s, x), FirstIndex(s[..n], x);
    assert s[b] == x;
    assert a <= b;
    assert s[..n][a] == x;
  }

  /** `a` can be obtained from `b` by deleting elements. */
  predicate IsSubseq<T(==)>(a: seq<T>, b: seq<T>)
    decreases |b|
  {
    if |a| == 0 then true
    else if |b| == 0 then false
    else (a[0] == b[0] && IsSubseq(a[1..], b[1..])) || IsSubseq(a, b[1..])
  }

  /**
   * The distinct values of `s`, each kept at its first occurrence: the list built by
   * appending a value only when it is not already in the list.
   */
  function Dedup<T(==,!new)>(s: seq<T>): (r: seq<T>)
    ensures NoDup(r)
    ensures forall x :: x in r <==> x in s
    ensures |r| <= |s|
    decreases |s|
  {
    if |s| == 0 then []
    else
      var p := Dedup(s[..|s| - 1]);
      var x := s[|s| - 1];
      assert s == s[..|s| - 1] + [x];
      if x in p then p else p + [x]
  }

  /** Dedup lists values in the order in which they were first seen. */
  lemma {:induction false} DedupFirstSeenOrder<T(!new)>(s: seq<T>)
    ensures forall i, j :: 0 <= i < j < |Dedup(s)| ==>
      FirstIndex(s, Dedup(s)[i]) < FirstIndex(s, Dedup(s)[j])
    decreases |s|
  {
    if |s| > 0 {
      var n := |s| - 1;
      var pre := s[..n];
      var p := Dedup(pre);
      var x := s[n];
      DedupFirstSeenOrder(pre);
      forall y | y in p
        ensures FirstIndex(s, y) == FirstIndex(pre, y) < n
      {
        FirstIndexPrefix(s, n, y);
      }
      if x !in p {
        assert x !in pre;
        assert FirstIndex(s, x) == n;
        var r := p + [x];
        assert r == Dedup(s);
        forall i, j | 0 <= i < j < |r| && r[i] in s && r[j] in s
          ensures FirstIndex(s, r[i]) < FirstIndex(s, r[j])
        {
          assert r[i] == p[i] && r[i] in p;
          if j < |p| {
            assert r[j] == p[j] && r[j] in p;
          }
        }
      }
    }
  }

  /** The elements of `s` that are not in `drop`, in their original order and multiplicity. */
  function Without<T(==,!new)>(s: seq<T>, drop: set<T>): (r: seq<T>)
    ensures forall x :: x in r <==> x in s && x !in drop
    ensures |r| <= |s|
    decreases |s|
  {
    if |s| == 0 then []
    else if s[0] in drop then Without(s[1..], drop)
    else [s[0]] + Without(s[1..], drop)
  }

  /**
   * Without keeps the order of `s` and every occurrence of each kept value: together the
   * two facts determine its result.
   */
  lemma {:induction false} WithoutIsOrderedSelection<T(!new)>(s: seq<T>, drop: set<T>)
    ensures IsSubseq(Without(s, drop), s)
    ensures forall x :: multiset(Without(s, drop))[x] == if x in drop then 0 else multiset(s)[x]
    decreases |s|
  {
    if |s| > 0 {
      var rest := Without(s[1..], drop);
      WithoutIsOrderedSelection(s[1..], drop);
      assert s == [s[0]] + s[1..];
      if s[0] !in drop {
        var r := [s[0]] + rest;
        assert r[1..] == rest;
      } else {
        SubseqOfTail(rest, s);
      }
    }
  }

  /** A subsequence of the tail of `b` is a subsequence of `b`. */
  lemma SubseqOfTail<T>(a: seq<T>, b: seq<T>)
    requires |b| > 0 && IsSubseq(a, b[1..])
    ensures IsSubseq(a, b)
  {
  }

  /** A value of a list without duplicates occurs in it exactly once. */
  lemma {:induction false} NoDupCountsOnce<T>(s: seq<T>, x: T)
    requires NoDup(s) && x in s
    ensures multiset(s)[x] == 1
    decreases |s|
  {
    assert s == [s[0]] + s[1..];
    if s[0] == x {
      assert x !in s[1..];
    } else {
      NoDupCountsOnce(s[1..], x);
    }
  }

  /** Appending a value to a list appends it to the deduplicated list unless already there. */
  lemma DedupAppend<T(!new)>(s: seq<T>, x: T)
    ensures Dedup(s + [x]) == if x in Dedup(s) then Dedup(s) else Dedup(s) + [x]
    ensures Elems(s + [x]) == Elems(s) + {x}
  {
    assert (s + [x])[..|s|] == s;
  }

  /** Dropping no values keeps the list as it is. */
  lemma {:induction false} WithoutNothing<T(!new)>(s: seq<T>)
    ensures Without(s, Elems([])) == s
    decreases |s|
  {
    if |s| > 0 {
      WithoutNothing(s[1..]);
    }
  }
}
