/** Generic sequence helpers shared by the table engine and the page logic:
    order-preserving filtering (`Array.prototype.filter`), subsequences,
    first-occurrence lookup (`indexOf`) and first-occurrence deduplication. */
module Seqs {

  /** `a` can be obtained from `b` by deleting elements, keeping order. */
  predicate IsSubsequence<T(==)>(a: seq<T>, b: seq<T>)
    decreases |b|
  {
    if a == [] then true
    else if b == [] then false
    else if a[0] == b[0] then IsSubsequence(a[1..], b[1..])
    else IsSubsequence(a, b[1..])
  }

  /** `s` has no element twice. */
  predicate Distinct<T(==)>(s: seq<T>) {
    forall i, j :: 0 <= i < j < |s| ==> s[i] != s[j]
  }

  /** Two duplicate-free sequences with no element in common concatenate
      to a duplicate-free sequence. */
  lemma DistinctAppend<T>(a: seq<T>, b: seq<T>)
    requires Distinct(a) && Distinct(b)
    requires forall i, j :: 0 <= i < |a| && 0 <= j < |b| ==> a[i] != b[j]
    ensures Distinct(a + b)
  {
    var s := a + b;
    forall i, j | 0 <= i < j < |s|
      ensures s[i] != s[j]
    {
      if j < |a| {
        assert s[i] == a[i] && s[j] == a[j];
      } else if i < |a| {
        assert s[i] == a[i] && s[j] == b[j - |a|];
      } else {
        assert s[i] == b[i - |a|] && s[j] == b[j - |a|];
      }
    }
  }

  /** The elements of `s` satisfying `p`, in their original order. */
  function Filter<T(!new)>(s: seq<T>, p: T -> bool): (r: seq<T>)
    ensures |r| <= |s|
    ensures forall x :: x in r <==> x in s && p(x)
    ensures multiset(r) <= multiset(s)
    ensures IsSubsequence(r, s)
  {
    if s == [] then []
    else if p(s[0]) then
      var rest := Filter(s[1..], p);
      assert s == [s[0]] + s[1..];
      [s[0]] + rest
    else
      var rest := Filter(s[1..], p);
      assert s == [s[0]] + s[1..];
      SubsequenceOfTail(rest, s);
      rest
  }

  /** Dropping the head of the larger sequence keeps a subsequence. */
  lemma SubsequenceOfTail<T>(a: seq<T>, b: seq<T>)
    requires |b| > 0
    requires IsSubsequence(a, b[1..])
    ensures IsSubsequence(a, b)
    decreases |b|, |a|
  {
    if a != [] && a[0] == b[0] {
      // a[1..] is a subsequence of b[1..] since a is one of b[1..]
      SubsequenceDropHead(a, b[1..]);
    }
  }

  /** If `a` is a subsequence of `b` then so is `a` without its head. */
  lemma SubsequenceDropHead<T>(a: seq<T>, b: seq<T>)
    requires |a| > 0
    requires IsSubsequence(a, b)
    ensures IsSubsequence(a[1..], b)
    decreases |b|, |a|
  {
    if b == [] {
    } else if a[0] == b[0] {
      SubsequenceOfTail(a[1..], b);
    } else {
      SubsequenceDropHead(a, b[1..]);
      SubsequenceOfTail(a[1..], b);
    }
  }

  /** Filtering keeps exactly the occurrences of the kept elements. */
  lemma FilterCount<T(!new)>(s: seq<T>, p: T -> bool, x: T)
    ensures multiset(Filter(s, p))[x] == if p(x) then multiset(s)[x] else 0
  {
    if s != [] {
      FilterCount(s[1..], p, x);
      assert s == [s[0]] + s[1..];
    }
  }

  /** `indexOf`: the position of the first occurrence of `x`, or -1. */
  function IndexOf<T(==)>(s: seq<T>, x: T): (r: int)
    ensures r == -1 <==> x !in s
    ensures 0 <= r ==> r < |s| && s[r] == x
    ensures forall k :: 0 <= k < r ==> s[k] != x
    ensures -1 <= r < |s|
  {
    if s == [] then -1
    else if s[0] == x then 0
    else
      var k := IndexOf(s[1..], x);
      assert s[1..] == s[1..][..|s| - 1];
      if k == -1 then -1
      else
        assert s[..k + 1] == [s[0]] + s[1..][..k];
        k + 1
  }

  /** In a sequence without repetitions, `indexOf` finds every position. */
  lemma IndexOfDistinct<T>(s: seq<T>, i: int)
    requires Distinct(s)
    requires 0 <= i < |s|
    ensures IndexOf(s, s[i]) == i
  {
  }

  /** First occurrences of the elements of `s`, in order of first appearance.
      Written as a left fold, the way a stream of rows is consumed. */
  function Dedup<T(==,!new)>(s: seq<T>): (r: seq<T>)
    ensures Distinct(r)
    ensures forall x :: x in r <==> x in s
  {
    if s == [] then []
    else
      var d := Dedup(s[..|s| - 1]);
      assert s == s[..|s| - 1] + [s[|s| - 1]];
      if s[|s| - 1] in d then d else d + [s[|s| - 1]]
  }

  /** Deduplicating one more element keeps it only if it is new. */
  lemma DedupSnoc<T(!new)>(s: seq<T>, x: T)
    ensures Dedup(s + [x]) == if x in Dedup(s) then Dedup(s) else Dedup(s) + [x]
  {
    assert (s + [x])[..|s|] == s;
  }

  /** Position of the first element of `s` satisfying `p`, if any. */
  function FirstWhere<T>(s: seq<T>, p: T -> bool): (r: int)
    ensures -1 <= r < |s|
    ensures r == -1 <==> forall i :: 0 <= i < |s| ==> !p(s[i])
    ensures 0 <= r ==> p(s[r]) && forall i :: 0 <= i < r ==> !p(s[i])
  {
    if s == [] then -1
    else if p(s[0]) then 0
    else
      var k := FirstWhere(s[1..], p);
      if k == -1 then -1 else k + 1
  }

  /** Extending a sequence at the end keeps an earlier first match. */
  lemma FirstWhereSnoc<T>(s: seq<T>, x: T, p: T -> bool)
    ensures FirstWhere(s + [x], p)
         == if FirstWhere(s, p) != -1 then FirstWhere(s, p) else if p(x) then |s| else -1
  {
    var t := s + [x];
    var k := FirstWhere(s, p);
    var m := FirstWhere(t, p);
    assert forall i :: 0 <= i < |s| ==> t[i] == s[i];
    if k != -1 {
      assert p(t[k]);
    } else if p(x) {
      assert p(t[|s|]);
    }
  }
}
