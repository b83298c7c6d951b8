/** The Python built-ins the modelled code applies to lists: slicing with possibly negative or
    out-of-range bounds, `sorted` and `max`. Fitness values are modelled as integers, since the
    code only compares them. */
module PySeq {

  /** How Python turns a slice bound into a position of a list of length `n`: negative bounds
      count from the end, and the result is clamped into `0..n`. */
  function SliceBound(i: int, n: nat): (b: nat)
    ensures b <= n
  {
    if i < 0 then (if i + n < 0 then 0 else i + n)
    else if i > n then n
    else i
  }

  /** `s[start:stop]` in Python: never fails, empty when the normalised bounds cross. */
  function Slice<T>(s: seq<T>, start: int, stop: int): (r: seq<T>)
    ensures |r| <= |s|
  {
    var a := SliceBound(start, |s|);
    var b := SliceBound(stop, |s|);
    if a < b then s[a..b] else []
  }

  ghost predicate Sorted(s: seq<int>) {
    forall i, j :: 0 <= i < j < |s| ==> s[i] <= s[j]
  }

  /** A value no larger than the head of a sorted sequence extends it to a sorted sequence. */
  lemma SortedCons(h: int, t: seq<int>)
    requires Sorted(t)
    requires t != [] ==> h <= t[0]
    ensures Sorted([h] + t)
  {
    var r := [h] + t;
    forall i, j | 0 <= i < j < |r|
      ensures r[i] <= r[j]
    {
      if i > 0 {
        assert r[i] == t[i - 1] && r[j] == t[j - 1];
      } else {
        assert r[j] == t[j - 1] && t[0] <= t[j - 1];
      }
    }
  }

  /** Every element of a permutation of `s[1..] + [x]` is at least `s[0]`, when `s` is sorted and `s[0] < x`. */
  lemma LowerBound(x: int, s: seq<int>, rest: seq<int>)
    requires Sorted(s) && |s| > 0 && s[0] < x
    requires multiset(rest) == multiset(s[1..]) + multiset{x}
    ensures forall k :: 0 <= k < |rest| ==> s[0] <= rest[k]
  {
    forall k | 0 <= k < |rest|
      ensures s[0] <= rest[k]
    {
      assert rest[k] in multiset(rest);
      if rest[k] != x {
        assert rest[k] in multiset(s[1..]);
        var i :| 0 <= i < |s[1..]| && s[1..][i] == rest[k];
        assert s[i + 1] == rest[k];
      }
    }
  }

  function Insert(x: int, s: seq<int>): (r: seq<int>)
    requires Sorted(s)
    ensures |r| == |s| + 1
    ensures Sorted(r)
    ensures multiset(r) == multiset(s) + multiset{x}
    decreases |s|
  {
    if s == [] then [x]
    else if x <= s[0] then
      SortedCons(x, s);
      [x] + s
    else
      var rest := Insert(x, s[1..]);
      LowerBound(x, s, rest);
      SortedCons(s[0], rest);
      assert s == [s[0]] + s[1..];
      [s[0]] + rest
  }

  /** Python's `sorted` on fitness values: ascending, and a permutation of its input. */
  function Sort(s: seq<int>): (r: seq<int>)
    ensures |r| == |s|
    ensures Sorted(r)
    ensures multiset(r) == multiset(s)
    decreases |s|
  {
    if s == [] then []
    else
      assert s == [s[0]] + s[1..];
      Insert(s[0], Sort(s[1..]))
  }

  /** Python's `max` on a non-empty list of fitness values. */
  function Max(s: seq<int>): (m: int)
    requires |s| > 0
    ensures m in s
    ensures forall x :: x in s ==> x <= m
    decreases |s|
  {
    if |s| == 1 then s[0]
    else
      var m := Max(s[1..]);
      assert s == [s[0]] + s[1..];
      if s[0] >= m then s[0] else m
  }

  /** `s[start:]` is the suffix from the normalised start. */
  lemma SliceFromIsSuffix<T>(s: seq<T>, start: int)
    ensures Slice(s, start, |s|) == s[SliceBound(start, |s|)..]
  {
  }

  /** In a sorted sequence every element before position `a` is at most every element from `a` on,
      and the two parts together hold exactly the sequence's elements. */
  lemma SortedSplit(s: seq<int>, a: nat)
    requires Sorted(s) && a <= |s|
    ensures Sorted(s[a..])
    ensures multiset(s[a..]) <= multiset(s)
    ensures multiset(s) - multiset(s[a..]) == multiset(s[..a])
    ensures forall x, y :: x in multiset(s[..a]) && y in multiset(s[a..]) ==> x <= y
  {
    SortedSuffix(s, a);
    SplitMultiset(s, a);
    forall x, y | x in multiset(s[..a]) && y in multiset(s[a..])
      ensures x <= y
    {
      var i :| 0 <= i < a && s[..a][i] == x;
      var j :| 0 <= j < |s| - a && s[a..][j] == y;
      assert s[i] == x && s[a + j] == y;
    }
  }

  lemma SortedSuffix(s: seq<int>, a: nat)
    requires Sorted(s) && a <= |s|
    ensures Sorted(s[a..])
  {
    forall i, j | 0 <= i < j < |s| - a
      ensures s[a..][i] <= s[a..][j]
    {
      assert s[a..][i] == s[a + i] && s[a..][j] == s[a + j];
    }
  }

  lemma SplitMultiset(s: seq<int>, a: nat)
    requires a <= |s|
    ensures multiset(s[..a]) + multiset(s[a..]) == multiset(s)
  {
    assert s == s[..a] + s[a..];
  }

  /** The last element of a sorted permutation is the maximum. */
  lemma SortedLastIsMax(s: seq<int>)
    requires |s| > 0
    ensures |Sort(s)| == |s|
    ensures Sort(s)[|s| - 1] == Max(s)
  {
    var t := Sort(s);
    var last := t[|t| - 1];
    var m := Max(s);
    assert last in multiset(t);
    assert last in s;
    assert m in multiset(t);
    var k :| 0 <= k < |t| && t[k] == m;
    assert m <= last;
  }
}
