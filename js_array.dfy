/** The JavaScript array built-ins that the query engine is made of:
    `filter`, `map`, `[...new Set(xs)]` and `slice`. */
module JsArray {

  /** a can be obtained from b by deleting elements, keeping the order of
      the rest. */
  ghost predicate IsSubsequence<T>(a: seq<T>, b: seq<T>)
    decreases |b|
  {
    if a == [] then true
    else if b == [] then false
    else (a[0] == b[0] && IsSubsequence(a[1..], b[1..])) || IsSubsequence(a, b[1..])
  }

  /** `s.filter(keep)`: the elements of s that satisfy keep, in their order
      in s, each as often as it occurs there. */
  function Filter<T(==,!new)>(s: seq<T>, keep: T -> bool): (r: seq<T>)
    ensures |r| <= |s|
    ensures forall x :: x in r <==> x in s && keep(x)
  {
    if s == [] then []
    else
      var rest := Filter(s[1..], keep);
      assert s == [s[0]] + s[1..];
      if keep(s[0]) then [s[0]] + rest else rest
  }

  /** The filter keeps the order of the elements it keeps. */
  lemma {:induction false} FilterIsSubsequence<T(!new)>(s: seq<T>, keep: T -> bool)
    ensures IsSubsequence(Filter(s, keep), s)
  {
    if s != [] {
      FilterIsSubsequence(s[1..], keep);
    }
  }

  /** The filter keeps every occurrence of a kept value and none of the
      others. */
  lemma {:induction false} FilterCounts<T(!new)>(s: seq<T>, keep: T -> bool)
    ensures forall x :: multiset(Filter(s, keep))[x] == if keep(x) then multiset(s)[x] else 0
  {
    if s != [] {
      FilterCounts(s[1..], keep);
      assert s == [s[0]] + s[1..];
    }
  }

  /** Filtering a concatenation filters each part. */
  lemma {:induction false} FilterAppend<T(!new)>(a: seq<T>, b: seq<T>, keep: T -> bool)
    ensures Filter(a + b, keep) == Filter(a, keep) + Filter(b, keep)
  {
    if a == [] {
      assert a + b == b;
    } else {
      var ab := a + b;
      assert ab[0] == a[0] && ab[1..] == a[1..] + b;
      FilterAppend(a[1..], b, keep);
    }
  }

  /** A filter that every element passes keeps the whole sequence. */
  lemma {:induction false} FilterKeepsAll<T(!new)>(s: seq<T>, keep: T -> bool)
    requires forall i :: 0 <= i < |s| ==> keep(s[i])
    ensures Filter(s, keep) == s
  {
    if s != [] {
      FilterKeepsAll(s[1..], keep);
    }
  }

  /** `s.map(f)`. */
  function Map<T, U>(s: seq<T>, f: T -> U): (r: seq<U>)
    ensures |r| == |s|
  {
    seq(|s|, i requires 0 <= i < |s| => f(s[i]))
  }

  /** No element occurs twice in s. */
  predicate NoDuplicates<T(==)>(s: seq<T>) {
    forall i, j :: 0 <= i < j < |s| ==> s[i] != s[j]
  }

  /** The first occurrence of x in s comes before every occurrence of y. */
  predicate OccursBefore<T(==)>(s: seq<T>, x: T, y: T) {
    forall k :: 0 <= k < |s| && s[k] == y ==> x in s[..k]
  }

  /** `[...new Set(s)]`: the distinct elements of s, in the order in which
      they first occur in s (a Set iterates in insertion order). */
  function Distinct<T(==,!new)>(s: seq<T>): (r: seq<T>)
    ensures NoDuplicates(r)
    ensures forall x :: x in r <==> x in s
    ensures forall i, j :: 0 <= i < j < |r| ==> OccursBefore(s, r[i], r[j])
  {
    if s == [] then []
    else
      var init := s[..|s| - 1];
      var d := Distinct(init);
      var x := s[|s| - 1];
      var r := if x in d then d else d + [x];
      DistinctExtends(init, x, d, r);
      assert s == init + [x];
      r
  }

  /** The step of Distinct: appending x to init, when d is what Distinct
      gives for init. */
  lemma DistinctExtends<T>(init: seq<T>, x: T, d: seq<T>, r: seq<T>)
    requires NoDuplicates(d)
    requires forall y :: y in d <==> y in init
    requires forall i, j :: 0 <= i < j < |d| ==> OccursBefore(init, d[i], d[j])
    requires r == if x in d then d else d + [x]
    ensures NoDuplicates(r)
    ensures forall y :: y in r <==> y in init + [x]
    ensures forall i, j :: 0 <= i < j < |r| ==> OccursBefore(init + [x], r[i], r[j])
  {
    var s := init + [x];
    forall i, j | 0 <= i < j < |r|
      ensures OccursBefore(s, r[i], r[j])
    {
      forall k | 0 <= k < |s| && s[k] == r[j]
        ensures r[i] in s[..k]
      {
        if k == |init| {
          assert r[i] in init;
          assert s[..k] == init;
        } else {
          assert s[..k] == init[..k];
          if j == |d| {
            assert false;
          }
          assert OccursBefore(init, d[i], d[j]);
        }
      }
    }
  }

  /** A position of ECMAScript's `slice`: a negative k counts back from the
      end; the result is clamped to 0 .. len. */
  function SliceIndex(k: int, len: nat): (r: nat)
    ensures r <= len
    ensures 0 <= k <= len ==> r == k
    ensures k > len ==> r == len
  {
    if k < 0 then (if len + k < 0 then 0 else len + k)
    else if k > len then len
    else k
  }

  /** `s.slice(start, end)`: the elements from position start up to, not
      including, position end, both positions normalised by SliceIndex; empty
      when end does not come after start. */
  function Slice<T>(s: seq<T>, start: int, end: int): (r: seq<T>)
    ensures |r| <= |s|
  {
    var from := SliceIndex(start, |s|);
    var to := SliceIndex(end, |s|);
    if from < to then s[from..to] else []
  }
}
