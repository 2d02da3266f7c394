/** Order-preserving filtering of sequences, the model of JavaScript's
    `Array.prototype.filter`, and the subsequence relation it establishes. */
module Seqs {

  /** `a` can be obtained from `b` by deleting elements: every element of
      `a` occurs in `b`, in the same relative order. */
  predicate IsSubsequence<T(==)>(a: seq<T>, b: seq<T>)
    decreases |b|
  {
    |a| == 0 ||
    (|b| > 0 && ((a[0] == b[0] && IsSubsequence(a[1..], b[1..])) || IsSubsequence(a, b[1..])))
  }

  /** Every sequence is a subsequence of itself. */
  lemma {:induction false} IsSubsequenceReflexive<T>(s: seq<T>)
    ensures IsSubsequence(s, s)
    decreases |s|
  {
    if |s| > 0 {
      IsSubsequenceReflexive(s[1..]);
    }
  }

  /** The elements of `s` satisfying `p`, in their original order. */
  function Filter<T(==,!new)>(s: seq<T>, p: T -> bool): (r: seq<T>)
    ensures |r| <= |s|
    ensures forall x :: x in r <==> x in s && p(x)
    ensures IsSubsequence(r, s)
    ensures (forall x :: x in s ==> p(x)) ==> r == s
    ensures |r| == |s| <==> forall x :: x in s ==> p(x)
  {
    if |s| == 0 then []
    else
      var rest := Filter(s[1..], p);
      assert forall x :: x in s <==> x == s[0] || x in s[1..];
      if p(s[0]) then [s[0]] + rest else rest
  }

  /** Filtering twice with the same predicate changes nothing the second time. */
  lemma {:induction false} FilterIdempotent<T(!new)>(s: seq<T>, p: T -> bool)
    ensures Filter(Filter(s, p), p) == Filter(s, p)
  {
    var r := Filter(s, p);
    assert forall x :: x in r ==> p(x);
  }

  /** Filtering a non-empty sequence: its head, if it qualifies, then the
      filtered tail. */
  lemma FilterCons<T(!new)>(s: seq<T>, p: T -> bool)
    requires |s| > 0
    ensures Filter(s, p) == (if p(s[0]) then [s[0]] else []) + Filter(s[1..], p)
  {
  }

  /** Filtering keeps every copy of each qualifying element and no copy of
      the others: with `IsSubsequence`, this pins the result down. */
  lemma {:induction false} FilterCounts<T(!new)>(s: seq<T>, p: T -> bool)
    ensures forall x :: multiset(Filter(s, p))[x] == if p(x) then multiset(s)[x] else 0
    decreases |s|
  {
    if |s| > 0 {
      FilterCounts(s[1..], p);
      FilterCons(s, p);
      CountsStep(s, Filter(s[1..], p), p);
    }
  }

  /** One step of `FilterCounts`: from the tail of `s` to all of `s`. */
  lemma CountsStep<T>(s: seq<T>, rest: seq<T>, p: T -> bool)
    requires |s| > 0
    requires forall x :: multiset(rest)[x] == if p(x) then multiset(s[1..])[x] else 0
    ensures forall x :: multiset((if p(s[0]) then [s[0]] else []) + rest)[x] == if p(x) then multiset(s)[x] else 0
  {
    assert s == [s[0]] + s[1..];
    assert multiset(s) == multiset([s[0]]) + multiset(s[1..]);
  }

  /** Filtering distributes over concatenation. */
  lemma {:induction false} FilterAppend<T(!new)>(a: seq<T>, b: seq<T>, p: T -> bool)
    ensures Filter(a + b, p) == Filter(a, p) + Filter(b, p)
    decreases |a|
  {
    if |a| == 0 {
      assert a + b == b;
    } else {
      FilterAppend(a[1..], b, p);
      FilterAppendStep(a, b, p);
    }
  }

  lemma AppendAssociates<T>(x: seq<T>, y: seq<T>, z: seq<T>)
    ensures x + (y + z) == (x + y) + z
  {
  }

  lemma DropAppend<T>(a: seq<T>, b: seq<T>)
    requires |a| > 0
    ensures (a + b)[0] == a[0] && (a + b)[1..] == a[1..] + b
  {
  }

  /** One step of `FilterAppend`: from the tail of `a` to all of `a`. */
  lemma FilterAppendStep<T(!new)>(a: seq<T>, b: seq<T>, p: T -> bool)
    requires |a| > 0
    requires Filter(a[1..] + b, p) == Filter(a[1..], p) + Filter(b, p)
    ensures Filter(a + b, p) == Filter(a, p) + Filter(b, p)
  {
    DropAppend(a, b);
    var head := if p(a[0]) then [a[0]] else [];
    FilterCons(a + b, p);
    FilterCons(a, p);
    AppendAssociates(head, Filter(a[1..], p), Filter(b, p));
  }

  /** The elements of `s` satisfying `p`, each mapped through `f`, in
      order: a loop that skips some elements and pushes the others
      transformed. */
  function FilterMap<T, U>(s: seq<T>, p: T -> bool, f: T -> U): (r: seq<U>)
    ensures |r| <= |s|
    decreases |s|
  {
    if |s| == 0 then []
    else
      var rest := FilterMap(s[1..], p, f);
      if p(s[0]) then [f(s[0])] + rest else rest
  }

  /** Skipping and transforming in one pass is transforming the filtered
      sequence element by element. */
  lemma {:induction false} FilterMapIsMapOfFilter<T(!new), U>(s: seq<T>, p: T -> bool, f: T -> U)
    ensures |FilterMap(s, p, f)| == |Filter(s, p)|
    ensures forall k :: 0 <= k < |Filter(s, p)| ==> FilterMap(s, p, f)[k] == f(Filter(s, p)[k])
    decreases |s|
  {
    if |s| > 0 {
      FilterMapIsMapOfFilter(s[1..], p, f);
      FilterCons(s, p);
    }
  }
}
