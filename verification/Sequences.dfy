/** Facts about sequences used by every stage of the codecs: bytes, permutations of
    0..n-1, occurrence counts and sums. */
module Sequences {

  type Byte = b: int | 0 <= b < 256 witness 0

  /** 0, 1, ..., n-1. */
  function Iota(n: nat): (s: seq<int>)
    ensures |s| == n && forall k :: 0 <= k < n ==> s[k] == k
  {
    if n == 0 then [] else Iota(n - 1) + [n - 1]
  }

  ghost predicate Distinct<T>(s: seq<T>) {
    forall i, j :: 0 <= i < j < |s| ==> s[i] != s[j]
  }

  ghost predicate InRange(s: seq<int>, n: int) {
    forall k :: 0 <= k < |s| ==> 0 <= s[k] < n
  }

  /** s lists every number below |s| exactly once. */
  ghost predicate IsPermutation(s: seq<int>) {
    InRange(s, |s|) && Distinct(s)
  }

  lemma {:induction false} DistinctCount<T>(s: seq<T>, x: T)
    requires Distinct(s)
    ensures multiset(s)[x] <= 1
  {
    if |s| > 0 {
      assert s == s[..|s| - 1] + [s[|s| - 1]];
      DistinctCount(s[..|s| - 1], x);
      if x == s[|s| - 1] {
        assert x !in s[..|s| - 1];
      }
    }
  }

  lemma CountTwo<T>(s: seq<T>, i: int, j: int)
    requires 0 <= i < j < |s| && s[i] == s[j]
    ensures multiset(s)[s[i]] >= 2
  {
    assert s == s[..j] + [s[j]] + s[j + 1..];
    assert s[i] in s[..j];
  }

  /** A rearrangement of a permutation is a permutation. */
  lemma PermutationRearranged(s: seq<int>, t: seq<int>)
    requires IsPermutation(s) && multiset(s) == multiset(t)
    ensures |s| == |t| && IsPermutation(t)
  {
    assert |s| == |multiset(s)| == |multiset(t)| == |t|;
    forall k | 0 <= k < |t| ensures 0 <= t[k] < |t| {
      assert t[k] in multiset(s);
    }
    forall i, j | 0 <= i < j < |t| ensures t[i] != t[j] {
      if t[i] == t[j] {
        CountTwo(t, i, j);
        DistinctCount(s, t[i]);
      }
    }
  }

  ghost function Elements(s: seq<int>): set<int> { set x | x in s }

  lemma {:induction false} DistinctSetSize(s: seq<int>)
    requires Distinct(s)
    ensures |Elements(s)| == |s|
  {
    if |s| > 0 {
      var a, z := s[..|s| - 1], s[|s| - 1];
      DistinctSetSize(a);
      assert s == a + [z];
      assert Elements(s) == Elements(a) + {z};
    }
  }

  /** The set {0, ..., n-1}. */
  ghost function UpTo(n: nat): (r: set<int>)
    ensures |r| == n && forall x :: x in r <==> 0 <= x < n
  {
    if n == 0 then {} else UpTo(n - 1) + {n - 1}
  }

  lemma SubsetSize(a: set<int>, b: set<int>)
    requires a <= b
    ensures |a| <= |b|
    ensures |a| == |b| ==> a == b
  {
    assert b == a + (b - a);
    assert |b| == |a| + |b - a|;
  }

  /** Pigeonhole: distinct numbers below n are at most n many. */
  lemma DistinctBound(s: seq<int>, n: nat)
    requires Distinct(s) && InRange(s, n)
    ensures |s| <= n
  {
    DistinctSetSize(s);
    SubsetSize(Elements(s), UpTo(n));
  }

  /** A permutation hits every number. */
  lemma PermutationHits(s: seq<int>, x: int)
    requires IsPermutation(s) && 0 <= x < |s|
    ensures x in s
  {
    DistinctSetSize(s);
    SubsetSize(Elements(s), UpTo(|s|));
    assert x in Elements(s);
  }

  lemma PermutationMultiset(s: seq<int>)
    requires IsPermutation(s)
    ensures multiset(s) == multiset(Iota(|s|))
  {
    var t := Iota(|s|);
    forall x: int ensures multiset(s)[x] == multiset(t)[x] {
      DistinctCount(s, x);
      DistinctCount(t, x);
      if 0 <= x < |s| {
        PermutationHits(s, x);
        PermutationHits(t, x);
        assert x in multiset(s) && x in multiset(t);
      } else {
        assert x !in s && x !in t;
        assert x !in multiset(s) && x !in multiset(t);
      }
    }
  }

  /** A rearrangement that leaves everything outside [lo, hi) alone rearranges [lo, hi). */
  lemma SliceMultiset<T>(s: seq<T>, t: seq<T>, lo: int, hi: int)
    requires |s| == |t| && 0 <= lo <= hi <= |s|
    requires multiset(s) == multiset(t)
    requires s[..lo] == t[..lo] && s[hi..] == t[hi..]
    ensures multiset(s[lo..hi]) == multiset(t[lo..hi])
  {
    ThreeParts(s, lo, hi);
    ThreeParts(t, lo, hi);
    CancelMultiset(multiset(s[lo..hi]), multiset(t[lo..hi]), multiset(s[..lo]), multiset(s[hi..]));
  }

  lemma ThreeParts<T>(s: seq<T>, lo: int, hi: int)
    requires 0 <= lo <= hi <= |s|
    ensures multiset(s) == multiset(s[..lo]) + multiset(s[lo..hi]) + multiset(s[hi..])
  {
    assert s == s[..lo] + s[lo..hi] + s[hi..];
  }

  lemma CancelMultiset<T>(a: multiset<T>, b: multiset<T>, p: multiset<T>, q: multiset<T>)
    requires p + a + q == p + b + q
    ensures a == b
  {
    forall x ensures a[x] == b[x] {
      assert (p + a + q)[x] == (p + b + q)[x];
    }
  }

  ghost predicate Ascending(s: seq<int>) {
    forall i, j :: 0 <= i < j < |s| ==> s[i] <= s[j]
  }

  /** Dropping the same element from two rearrangements leaves rearrangements. */
  lemma DropLastMultiset(s: seq<int>)
    requires |s| > 0
    ensures multiset(s[..|s| - 1]) == multiset(s) - multiset{s[|s| - 1]}
  {
    assert s == s[..|s| - 1] + [s[|s| - 1]];
  }

  lemma LastOfAscending(s: seq<int>, t: seq<int>)
    requires |s| > 0 && |t| > 0 && Ascending(s) && Ascending(t)
    requires multiset(s) == multiset(t)
    ensures s[|s| - 1] == t[|t| - 1]
  {
    assert s[|s| - 1] in multiset(t) && t[|t| - 1] in multiset(s);
  }

  /** Two weakly increasing sequences with the same elements are the same sequence. */
  lemma {:induction false} SortedUnique(s: seq<int>, t: seq<int>)
    requires multiset(s) == multiset(t) && Ascending(s) && Ascending(t)
    ensures s == t
    decreases |s|
  {
    assert |s| == |multiset(s)| == |multiset(t)| == |t|;
    if |s| > 0 {
      LastOfAscending(s, t);
      DropLastMultiset(s);
      DropLastMultiset(t);
      var a, b := s[..|s| - 1], t[..|t| - 1];
      assert multiset(a) == multiset(b);
      SortedUnique(a, b);
      forall k | 0 <= k < |s| ensures s[k] == t[k] {
        if k < |s| - 1 { assert s[k] == a[k] && t[k] == b[k]; }
      }
    }
  }

  /** The image of s under a table f: f[s[0]], f[s[1]], ... */
  function Gather(f: seq<int>, s: seq<int>): (r: seq<int>)
    requires InRange(s, |f|)
    ensures |r| == |s| && forall k :: 0 <= k < |s| ==> r[k] == f[s[k]]
  {
    seq(|s|, k requires 0 <= k < |s| => f[s[k]])
  }

  function Remove<T>(s: seq<T>, k: int): seq<T>
    requires 0 <= k < |s|
  {
    s[..k] + s[k + 1..]
  }

  lemma RemoveMultiset<T>(s: seq<T>, k: int)
    requires 0 <= k < |s|
    ensures multiset(s) == multiset(Remove(s, k)) + multiset{s[k]}
  {
    assert s == s[..k] + ([s[k]] + s[k + 1..]);
  }

  lemma CancelOne<T>(a: multiset<T>, b: multiset<T>, x: T)
    requires a + multiset{x} == b + multiset{x}
    ensures a == b
  {
    assert a == (a + multiset{x}) - multiset{x};
    assert b == (b + multiset{x}) - multiset{x};
  }

  lemma GatherRemove(f: seq<int>, s: seq<int>, k: int)
    requires InRange(s, |f|) && 0 <= k < |s|
    ensures InRange(Remove(s, k), |f|)
    ensures multiset(Gather(f, s)) == multiset(Gather(f, Remove(s, k))) + multiset{f[s[k]]}
  {
    assert Gather(f, Remove(s, k)) == Remove(Gather(f, s), k);
    RemoveMultiset(Gather(f, s), k);
  }

  lemma {:induction false} GatherMultiset(f: seq<int>, s: seq<int>, t: seq<int>)
    requires InRange(s, |f|) && InRange(t, |f|)
    requires multiset(s) == multiset(t)
    ensures multiset(Gather(f, s)) == multiset(Gather(f, t))
    decreases |s|
  {
    assert |s| == |multiset(s)| == |multiset(t)| == |t|;
    if |s| > 0 {
      assert s[0] in multiset(t);
      var k :| 0 <= k < |t| && t[k] == s[0];
      GatherRemove(f, s, 0);
      GatherRemove(f, t, k);
      RemoveMultiset(s, 0);
      RemoveMultiset(t, k);
      CancelOne(multiset(Remove(s, 0)), multiset(Remove(t, k)), s[0]);
      GatherMultiset(f, Remove(s, 0), Remove(t, k));
    }
  }

  /** How often x occurs in s. */
  function Count(s: seq<int>, x: int): (n: nat)
    ensures n <= |s|
  {
    if |s| == 0 then 0
    else Count(s[..|s| - 1], x) + (if s[|s| - 1] == x then 1 else 0)
  }

  lemma CountNext(s: seq<int>, i: int, x: int)
    requires 0 <= i < |s|
    ensures Count(s[..i + 1], x) == Count(s[..i], x) + (if s[i] == x then 1 else 0)
  {
    assert s[..i + 1][..i] == s[..i];
  }

  lemma {:induction false} CountMonotone(s: seq<int>, i: int, j: int, x: int)
    requires 0 <= i <= j <= |s|
    ensures Count(s[..i], x) <= Count(s[..j], x)
    decreases j
  {
    if i < j {
      CountMonotone(s, i, j - 1, x);
      CountNext(s, j - 1, x);
    }
  }

  lemma {:induction false} CountUpdate(s: seq<int>, i: int, v: int, x: int)
    requires 0 <= i < |s|
    ensures Count(s[i := v], x) == Count(s, x) - (if s[i] == x then 1 else 0) + (if v == x then 1 else 0)
    decreases |s|
  {
    var n := |s| - 1;
    if i < n {
      assert s[i := v][..n] == s[..n][i := v];
      CountUpdate(s[..n], i, v, x);
    } else {
      assert s[i := v][..n] == s[..n];
    }
  }

  lemma {:induction false} CountIsMultiplicity(s: seq<int>, x: int)
    ensures Count(s, x) == multiset(s)[x]
    decreases |s|
  {
    if |s| > 0 {
      CountIsMultiplicity(s[..|s| - 1], x);
      assert s == s[..|s| - 1] + [s[|s| - 1]];
    }
  }

  /** Where the r-th n stands. */
  lemma {:induction false} Nth(s: seq<int>, n: int, r: nat) returns (k: int)
    requires r < Count(s, n)
    ensures 0 <= k < |s| && s[k] == n && Count(s[..k], n) == r
  {
    var i := |s| - 1;
    if s[i] == n && r == Count(s[..i], n) {
      k := i;
    } else {
      k := Nth(s[..i], n, r);
      assert s[..i][..k] == s[..k];
    }
  }

  /** How many entries of s lie in 0..x-1: the running total of the counts, as a
      counting sort accumulates it. */
  function Below(s: seq<int>, x: nat): nat {
    if x == 0 then 0 else Below(s, x - 1) + Count(s, x - 1)
  }

  lemma {:induction false} BelowMonotone(s: seq<int>, x: nat, y: nat)
    requires x <= y
    ensures Below(s, x) <= Below(s, y)
  {
    if x < y { BelowMonotone(s, x, y - 1); }
  }

  lemma {:induction false} BelowNext(s: seq<int>, x: nat)
    requires |s| > 0 && s[|s| - 1] >= 0
    ensures Below(s, x) == Below(s[..|s| - 1], x) + (if s[|s| - 1] < x then 1 else 0)
  {
    if x > 0 { BelowNext(s, x - 1); }
  }

  /** When every entry is below x, Below counts them all. */
  lemma {:induction false} BelowAll(s: seq<int>, x: nat)
    requires InRange(s, x)
    ensures Below(s, x) == |s|
  {
    if |s| > 0 {
      BelowNext(s, x);
      BelowAll(s[..|s| - 1], x);
    } else {
      BelowEmpty(x);
    }
  }

  lemma {:induction false} BelowEmpty(x: nat)
    ensures Below([], x) == 0
  {
    if x > 0 { BelowEmpty(x - 1); }
  }

  function Total(s: seq<nat>): nat { if |s| == 0 then 0 else Total(s[..|s| - 1]) + s[|s| - 1] }

  lemma TotalNext(s: seq<nat>, k: nat)
    requires k < |s|
    ensures Total(s[..k + 1]) == Total(s[..k]) + s[k]
  {
    assert s[..k + 1][..k] == s[..k];
  }

  lemma Assoc<T>(a: seq<T>, b: seq<T>, c: seq<T>)
    ensures (a + b) + c == a + (b + c)
  {
  }
}
