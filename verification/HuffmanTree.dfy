/** The trees BZ2_hbMakeCodeLengths of huffman.c builds: nodes are numbered from 1, the leaves
    first, and each later node joins two earlier ones. */
module HuffmanTree {
  import opened Bits
  import opened CanonicalCode

  /** p is the parent table of a forest with leaves 1..n and joins n+1..m, where join i has the
      children a[i] and b[i]; roots have a negative parent. */
  ghost predicate Forest(p: seq<int>, a: seq<int>, b: seq<int>, n: int, m: int) {
    && 1 <= n <= m < |p| && m < |a| && m < |b|
    && (forall v :: 1 <= v <= m ==> Rooted(p, a, b, n, m, v))
    && (forall i :: n < i <= m ==> Joins(p, a, b, i))
  }

  ghost predicate Rooted(p: seq<int>, a: seq<int>, b: seq<int>, n: int, m: int, v: int)
    requires 1 <= v <= m < |p| && m < |a| && m < |b| && 1 <= n
  {
    p[v] < 0 || (n < p[v] <= m && v < p[v] && (v == a[p[v]] || v == b[p[v]]))
  }

  ghost predicate Joins(p: seq<int>, a: seq<int>, b: seq<int>, i: int)
    requires 1 <= i < |p| && i < |a| && i < |b|
  {
    1 <= a[i] < i && 1 <= b[i] < i && a[i] != b[i] && p[a[i]] == i && p[b[i]] == i
  }

  // ---- Sums over the roots ----

  /** The sum of f over those of nodes 1..k that are roots once only nodes 1..m exist. */
  ghost function RootSum(f: seq<int>, p: seq<int>, m: int, k: nat): int
    requires k < |f| && k < |p|
  {
    if k == 0 then 0 else RootSum(f, p, m, k - 1) + (if p[k] < 0 || p[k] > m then f[k] else 0)
  }

  /** Adding node m hides its two children. */
  lemma {:induction false} RootSumJoin(f: seq<int>, p: seq<int>, a: seq<int>, b: seq<int>, n: int, top: int, m: int, k: nat)
    requires Forest(p, a, b, n, top) && n < m <= top && k < m && k < |f|
    requires a[m] < |f| && b[m] < |f|
    ensures Joins(p, a, b, m)
    ensures RootSum(f, p, m, k) == RootSum(f, p, m - 1, k) - (if a[m] <= k then f[a[m]] else 0) - (if b[m] <= k then f[b[m]] else 0)
  {
    assert Joins(p, a, b, m);
    if k > 0 {
      RootSumJoin(f, p, a, b, n, top, m, k - 1);
      assert Rooted(p, a, b, n, top, k);
    }
  }

  /** A quantity that every join adds up is conserved over the roots. */
  lemma {:induction false} RootSumConserved(f: seq<int>, p: seq<int>, a: seq<int>, b: seq<int>, n: int, top: int, m: int)
    requires Forest(p, a, b, n, top) && n <= m <= top < |f|
    requires forall i :: n < i <= top ==> Joins(p, a, b, i) && f[i] == f[a[i]] + f[b[i]]
    ensures RootSum(f, p, m, m) == RootSum(f, p, n, n)
    decreases m
  {
    if m > n {
      RootSumConserved(f, p, a, b, n, top, m - 1);
      assert Joins(p, a, b, m);
      RootSumJoin(f, p, a, b, n, top, m, m - 1);
      assert Rooted(p, a, b, n, top, m);
    }
  }

  ghost function Sum(f: seq<int>, k: nat): int
    requires k < |f|
  {
    if k == 0 then 0 else Sum(f, k - 1) + f[k]
  }

  lemma {:induction false} LeavesAreRoots(f: seq<int>, p: seq<int>, a: seq<int>, b: seq<int>, n: int, top: int, k: nat)
    requires Forest(p, a, b, n, top) && k <= n && top < |f|
    ensures RootSum(f, p, n, k) == Sum(f, k)
  {
    if k > 0 {
      LeavesAreRoots(f, p, a, b, n, top, k - 1);
      assert Rooted(p, a, b, n, top, k);
    }
  }

  ghost predicate NonNegative(f: seq<int>) { forall v :: 0 <= v < |f| ==> f[v] >= 0 }

  /** Two roots weigh no more than all of them. */
  lemma {:induction false} RootSumAtLeast(f: seq<int>, p: seq<int>, m: int, k: nat, x: int, y: int)
    requires k < |f| && k < |p| && NonNegative(f) && 1 <= x && 1 <= y && x != y
    requires (x <= k ==> p[x] < 0 || p[x] > m) && (y <= k ==> p[y] < 0 || p[y] > m)
    ensures RootSum(f, p, m, k) >= (if x <= k then f[x] else 0) + (if y <= k then f[y] else 0)
  {
    if k > 0 { RootSumAtLeast(f, p, m, k - 1, x, y); }
  }

  /** With one root, the sum is what it carries. */
  lemma {:induction false} RootSumSingle(f: seq<int>, p: seq<int>, a: seq<int>, b: seq<int>, n: int, m: int, k: nat)
    requires Forest(p, a, b, n, m) && k <= m < |f| && p[m] < 0
    requires forall v :: 1 <= v < m ==> p[v] >= 0
    ensures RootSum(f, p, m, k) == if k == m then f[m] else 0
  {
    if k > 0 {
      RootSumSingle(f, p, a, b, n, m, k - 1);
      assert Rooted(p, a, b, n, m, k);
    }
  }

  // ---- Depths ----

  /** The number of steps from v to its root, as the parent table is followed. */
  ghost function Depth(p: seq<int>, a: seq<int>, b: seq<int>, n: int, m: int, v: int): (d: nat)
    requires Forest(p, a, b, n, m) && 1 <= v <= m
    ensures d <= m - v
    decreases m - v
  {
    assert Rooted(p, a, b, n, m, v);
    if p[v] < 0 then 0 else 1 + Depth(p, a, b, n, m, p[v])
  }

  /** The share of node v: 2 to the power -depth, in units of 2 to the power -top. */
  ghost function Shares(p: seq<int>, a: seq<int>, b: seq<int>, n: int, m: int, top: nat): (f: seq<int>)
    requires Forest(p, a, b, n, m) && m <= top
    ensures |f| == m + 1 && forall v :: 1 <= v <= m ==> f[v] == Pow2(top - Depth(p, a, b, n, m, v))
  {
    seq(m + 1, v requires 0 <= v <= m => if v == 0 then 0 else Pow2(top - Depth(p, a, b, n, m, v)))
  }

  lemma SharesAdd(p: seq<int>, a: seq<int>, b: seq<int>, n: int, m: int, top: nat, i: int)
    requires Forest(p, a, b, n, m) && m <= top && n < i <= m
    ensures Joins(p, a, b, i)
    ensures var f := Shares(p, a, b, n, m, top); f[i] == f[a[i]] + f[b[i]]
  {
    assert Joins(p, a, b, i);
    var d := Depth(p, a, b, n, m, i);
    assert Depth(p, a, b, n, m, a[i]) == 1 + d;
    assert Depth(p, a, b, n, m, b[i]) == 1 + d;
    assert Pow2(top - d) == 2 * Pow2(top - (1 + d));
  }

  /** The depths of the leaves. */
  ghost predicate LeafDepths(len: seq<int>, p: seq<int>, a: seq<int>, b: seq<int>, n: int, m: int)
    requires Forest(p, a, b, n, m)
  {
    |len| == n && forall i :: 0 <= i < n ==> len[i] == Depth(p, a, b, n, m, i + 1)
  }

  lemma {:induction false} KraftIsShares(len: seq<int>, f: seq<int>, top: nat, k: nat)
    requires k <= |len| < |f| && Between(len, 0, top)
    requires forall i :: 0 <= i < |len| ==> f[i + 1] == Pow2(top - len[i])
    ensures KraftSum(len[..k], top) == Sum(f, k)
  {
    if k > 0 {
      KraftIsShares(len, f, top, k - 1);
      assert len[..k][..k - 1] == len[..k - 1];
      assert f[(k - 1) + 1] == Pow2(top - len[k - 1]);
    }
  }

  /** A sum that joins conserve passes from the leaves to the one root. */
  lemma LeavesToRoot(f: seq<int>, p: seq<int>, a: seq<int>, b: seq<int>, n: int, m: int)
    requires Forest(p, a, b, n, m) && m < |f|
    requires p[m] < 0 && forall v :: 1 <= v < m ==> p[v] >= 0
    requires forall i :: n < i <= m ==> Joins(p, a, b, i) && f[i] == f[a[i]] + f[b[i]]
    ensures Sum(f, n) == f[m]
  {
    RootSumConserved(f, p, a, b, n, m, m);
    LeavesAreRoots(f, p, a, b, n, m, n);
    RootSumSingle(f, p, a, b, n, m, m);
  }

  lemma SharesJoin(p: seq<int>, a: seq<int>, b: seq<int>, n: int, m: int, top: nat, f: seq<int>)
    requires Forest(p, a, b, n, m) && m <= top && f == Shares(p, a, b, n, m, top)
    ensures forall i :: n < i <= m ==> Joins(p, a, b, i) && f[i] == f[a[i]] + f[b[i]]
  {
    forall i | n < i <= m ensures Joins(p, a, b, i) && f[i] == f[a[i]] + f[b[i]] {
      SharesAdd(p, a, b, n, m, top, i);
    }
  }

  lemma SharesOfLeaves(len: seq<int>, p: seq<int>, a: seq<int>, b: seq<int>, n: int, m: int, top: nat, f: seq<int>)
    requires Forest(p, a, b, n, m) && m <= top && f == Shares(p, a, b, n, m, top) && LeafDepths(len, p, a, b, n, m)
    ensures Between(len, 0, top) && forall i :: 0 <= i < n ==> f[i + 1] == Pow2(top - len[i])
  {
    forall i | 0 <= i < n ensures 0 <= len[i] <= top && f[i + 1] == Pow2(top - len[i]) {
      assert len[i] == Depth(p, a, b, n, m, i + 1);
    }
  }

  lemma ShareFacts(len: seq<int>, p: seq<int>, a: seq<int>, b: seq<int>, n: int, m: int, top: nat) returns (f: seq<int>)
    requires Forest(p, a, b, n, m) && m <= top && LeafDepths(len, p, a, b, n, m) && p[m] < 0
    ensures |f| == m + 1 && f[m] == Pow2(top) && Between(len, 0, top)
    ensures forall i :: n < i <= m ==> Joins(p, a, b, i) && f[i] == f[a[i]] + f[b[i]]
    ensures forall i :: 0 <= i < n ==> f[i + 1] == Pow2(top - len[i])
  {
    f := Shares(p, a, b, n, m, top);
    assert Depth(p, a, b, n, m, m) == 0;
    SharesJoin(p, a, b, n, m, top, f);
    SharesOfLeaves(len, p, a, b, n, m, top, f);
  }

  /** The depths of the leaves of one tree have Kraft sum exactly one. */
  lemma TreeKraft(len: seq<int>, p: seq<int>, a: seq<int>, b: seq<int>, n: int, m: int, top: nat)
    requires Forest(p, a, b, n, m) && m <= top && LeafDepths(len, p, a, b, n, m)
    requires p[m] < 0 && forall v :: 1 <= v < m ==> p[v] >= 0
    ensures Between(len, 0, top) && KraftSum(len, top) == Pow2(top)
  {
    var f := ShareFacts(len, p, a, b, n, m, top);
    LeavesToRoot(f, p, a, b, n, m);
    KraftIsShares(len, f, top, n);
    assert len[..n] == len;
  }

  /** Coarser units. */
  lemma {:induction false} KraftScale(len: seq<int>, c: nat, top: nat)
    requires Between(len, 0, c) && c <= top
    ensures KraftSum(len, top) == KraftSum(len, c) * Pow2(top - c)
  {
    if |len| > 0 {
      var s, x := len[..|len| - 1], len[|len| - 1];
      KraftScale(s, c, top);
      Pow2Add(c - x, top - c);
      TimesSum(KraftSum(s, c), Pow2(c - x), Pow2(top - c));
    }
  }

  lemma KraftExact(len: seq<int>, c: nat, top: nat)
    requires Between(len, 0, c) && c <= top && KraftSum(len, top) == Pow2(top)
    ensures KraftSum(len, c) == Pow2(c)
  {
    KraftScale(len, c, top);
    ExactNumbers(KraftSum(len, c), c, top - c, top, KraftSum(len, top));
  }

  lemma ExactNumbers(x: nat, c: nat, d: nat, top: nat, sum: nat)
    requires c + d == top && x * Pow2(d) == sum == Pow2(top)
    ensures x == Pow2(c)
  {
    Pow2Add(c, d);
    SameFactor(x, Pow2(c), Pow2(d));
  }

  lemma SameFactor(x: int, y: int, p: int)
    requires p > 0 && x * p == y * p
    ensures x == y
  {
    CancelFactor(x, y, p);
    CancelFactor(y, x, p);
  }

  /** If heights grow towards the root, no node is deeper than the root is high. */
  lemma {:induction false} DepthAtMostHeight(p: seq<int>, a: seq<int>, b: seq<int>, n: int, m: int, d: seq<int>, v: int)
    requires Forest(p, a, b, n, m) && m < |d| && 1 <= v <= m
    requires forall i :: 1 <= i <= m && 0 <= p[i] <= m ==> d[i] < d[p[i]]
    requires forall i :: 1 <= i < m ==> p[i] >= 0
    ensures Depth(p, a, b, n, m, v) <= d[m] - d[v]
    decreases m - v
  {
    assert Rooted(p, a, b, n, m, v);
    if p[v] >= 0 { DepthAtMostHeight(p, a, b, n, m, d, p[v]); }
  }

  // ---- Fibonacci growth ----

  /** The least weight of a tree of height h. */
  function Least(h: nat): (r: nat)
    ensures r >= 1
  {
    if h <= 1 then h + 1 else Least(h - 1) + Least(h - 2)
  }

  lemma {:induction false} LeastMonotone(g: nat, h: nat)
    requires g <= h
    ensures Least(g) <= Least(h)
  {
    if g < h { LeastMonotone(g, h - 1); }
  }

  /** Two levels more at least double the weight. */
  lemma {:induction false} LeastDoubles(h: nat)
    requires h >= 3
    ensures Least(h) >= 2 * Pow2(h / 2)
  {
    if h >= 5 {
      LeastDoubles(h - 2);
      LeastMonotone(h - 2, h - 1);
      assert h / 2 == (h - 2) / 2 + 1;
    }
  }
}
