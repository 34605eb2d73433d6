/** Huffman's theorem for the trees of huffman.c: when every join takes the two lightest roots,
    no prefix code costs less than the depths of the leaves. */
module HuffmanOptimal {
  import opened Bits
  import opened CanonicalCode
  import opened HuffmanTree

  /** v is a root once only nodes 1..m exist. */
  ghost predicate Tops(p: seq<int>, m: int, v: int) { 1 <= v <= m < |p| && (p[v] < 0 || p[v] > m) }

  /** Of the roots among nodes 1..m, x is the lightest and y the lightest but x. */
  ghost predicate Lightest(f: seq<int>, p: seq<int>, m: int, x: int, y: int) {
    && 0 <= m < |f| && Tops(p, m, x) && Tops(p, m, y) && x != y && 0 <= f[x] <= f[y]
    && forall v :: Tops(p, m, v) && v != x ==> f[y] <= f[v]
  }

  /** Join i takes the two lightest roots there are, and adds up their weights. */
  ghost predicate Greedily(f: seq<int>, p: seq<int>, a: seq<int>, b: seq<int>, i: int) {
    0 <= i < |a| && i < |b| && i < |f| && Lightest(f, p, i - 1, a[i], b[i]) && f[i] == f[a[i]] + f[b[i]]
  }

  ghost predicate Greedy(f: seq<int>, p: seq<int>, a: seq<int>, b: seq<int>, n: int, top: int) {
    Forest(p, a, b, n, top) && top < |f| && NonNegative(f) && forall i :: n < i <= top ==> Greedily(f, p, a, b, i)
  }

  // ---- Lengths given to the roots ----

  ghost predicate Lengths(l: seq<int>, top: int, t: nat) {
    |l| == top + 1 && forall v :: 0 <= v <= top ==> 0 <= l[v] <= t
  }

  ghost function Costs(f: seq<int>, l: seq<int>): (c: seq<int>)
    requires |l| <= |f|
    ensures |c| == |l| && forall v :: 0 <= v < |l| ==> c[v] == f[v] * l[v]
  {
    seq(|l|, v requires 0 <= v < |l| => f[v] * l[v])
  }

  ghost function Units(l: seq<int>, top: int, t: nat): (u: seq<int>)
    requires Lengths(l, top, t)
    ensures |u| == |l| && NonNegative(u) && forall v :: 0 <= v < |l| ==> u[v] == Pow2(t - l[v])
  {
    seq(|l|, v requires 0 <= v < |l| => Pow2(t - l[v]))
  }

  /** The weights of the roots times their lengths. */
  ghost function Cost(f: seq<int>, l: seq<int>, p: seq<int>, m: int): int
    requires 0 <= m < |l| <= |f| && m < |p|
  {
    RootSum(Costs(f, l), p, m, m)
  }

  /** The Kraft sum over the roots. */
  ghost function Kraft(l: seq<int>, top: int, t: nat, p: seq<int>, m: int): int
    requires Lengths(l, top, t) && 0 <= m <= top && m < |p|
  {
    RootSum(Units(l, top, t), p, m, m)
  }

  lemma {:induction false} RootSumUpdate(f: seq<int>, p: seq<int>, m: int, k: nat, v: int, z: int)
    requires k < |f| && k < |p| && 1 <= v < |f|
    ensures RootSum(f[v := z], p, m, k) == RootSum(f, p, m, k) + (if v <= k && (p[v] < 0 || p[v] > m) then z - f[v] else 0)
  {
    if k > 0 { RootSumUpdate(f, p, m, k - 1, v, z); }
  }

  lemma CostUpdate(f: seq<int>, l: seq<int>, p: seq<int>, m: int, v: int, z: int)
    requires 0 <= m < |l| <= |f| && m < |p| && 1 <= v < |l|
    ensures Cost(f, l[v := z], p, m) == Cost(f, l, p, m) + (if Tops(p, m, v) then f[v] * z - f[v] * l[v] else 0)
  {
    assert Costs(f, l[v := z]) == Costs(f, l)[v := f[v] * z];
    RootSumUpdate(Costs(f, l), p, m, m, v, f[v] * z);
  }

  lemma KraftUpdate(l: seq<int>, top: int, t: nat, p: seq<int>, m: int, v: int, z: int)
    requires Lengths(l, top, t) && 0 <= m <= top && m < |p| && 1 <= v <= top && 0 <= z <= t
    ensures Kraft(l[v := z], top, t, p, m) == Kraft(l, top, t, p, m) + (if Tops(p, m, v) then Pow2(t - z) - Pow2(t - l[v]) else 0)
  {
    assert Units(l[v := z], top, t) == Units(l, top, t)[v := Pow2(t - z)];
    RootSumUpdate(Units(l, top, t), p, m, m, v, Pow2(t - z));
  }

  // ---- Giving the two lightest roots the greatest lengths ----

  lemma Rearranged(f: int, g: int, x: int, y: int)
    requires f <= g && x <= y
    ensures f * y + g * x <= f * x + g * y
    ensures f < g && x < y ==> f * y + g * x < f * x + g * y
  {
    Products(g - f, y - x);
    TimesSum(g - f, f, y - x);
    assert g * (y - x) == g * y - g * x;
    assert f * (y - x) == f * y - f * x;
  }

  lemma Products(x: nat, y: nat)
    ensures x * y >= 0
    ensures x > 0 && y > 0 ==> x * y > 0
  {
  }

  /** Exchanging the lengths of two roots keeps the Kraft sum, and does not cost more when the
      lighter one gets the greater length. */
  lemma Exchanged(f: seq<int>, l: seq<int>, top: int, t: nat, p: seq<int>, m: int, x: int, u: int)
    returns (l': seq<int>)
    requires Lengths(l, top, t) && 0 <= m <= top < |f| && top < |p| && Tops(p, m, x) && Tops(p, m, u)
    requires f[x] <= f[u] && l[x] <= l[u]
    ensures Lengths(l', top, t) && l' == l[x := l[u]][u := l[x]]
    ensures Kraft(l', top, t, p, m) == Kraft(l, top, t, p, m) && Cost(f, l', p, m) <= Cost(f, l, p, m)
  {
    l' := l[x := l[u]][u := l[x]];
    if x == u {
      assert l' == l;
    } else {
      CostUpdate(f, l, p, m, x, l[u]);
      CostUpdate(f, l[x := l[u]], p, m, u, l[x]);
      KraftUpdate(l, top, t, p, m, x, l[u]);
      KraftUpdate(l[x := l[u]], top, t, p, m, u, l[x]);
      Rearranged(f[x], f[u], l[x], l[u]);
    }
  }

  /** A root other than x with the greatest length. */
  lemma Deepest(l: seq<int>, p: seq<int>, m: int, x: int, y: int) returns (u: int)
    requires 0 <= m < |l| && Tops(p, m, y) && y != x
    ensures Tops(p, m, u) && u != x && forall v :: Tops(p, m, v) && v != x ==> l[v] <= l[u]
  {
    u := y;
    for k := 1 to m + 1
      invariant Tops(p, m, u) && u != x && forall v :: Tops(p, m, v) && v != x && v < k ==> l[v] <= l[u]
    {
      if Tops(p, m, k) && k != x && l[k] > l[u] { u := k; }
    }
  }

  /** Where no root is longer than e, the Kraft sum is a multiple of the unit of length e. */
  lemma {:induction false} WholeUnits(l: seq<int>, top: int, t: nat, p: seq<int>, m: int, k: nat, e: nat) returns (q: int)
    requires Lengths(l, top, t) && k <= m <= top < |p| && e <= t
    requires forall v :: Tops(p, m, v) ==> l[v] <= e
    ensures RootSum(Units(l, top, t), p, m, k) == q * Pow2(t - e)
  {
    if k == 0 {
      q := 0;
    } else {
      q := WholeUnits(l, top, t, p, m, k - 1, e);
      if Tops(p, m, k) {
        Pow2Add(e - l[k], t - e);
        TimesSum(q, Pow2(e - l[k]), Pow2(t - e));
        q := q + Pow2(e - l[k]);
      }
    }
  }

  /** A multiple of d less than one d above another is no greater. */
  lemma NoMore(q: int, r: int, d: int)
    requires d > 0 && q * d < r * d + d
    ensures q * d <= r * d
  {
    TimesSum(r, 1, d);
    if q > r {
      TimesSum(q - (r + 1), r + 1, d);
      Products(q - (r + 1), d);
      assert false;
    }
    TimesSum(r - q, q, d);
    Products(r - q, d);
  }

  /** If all roots but x have lengths of at most e, x needs no more. */
  lemma Shortened(l: seq<int>, top: int, t: nat, p: seq<int>, m: int, x: int, y: int) returns (l': seq<int>)
    requires Lengths(l, top, t) && 0 <= m <= top < |p| && Tops(p, m, x) && Tops(p, m, y) && x != y && l[y] <= l[x]
    requires (forall v :: Tops(p, m, v) && v != x ==> l[v] <= l[y]) && Kraft(l, top, t, p, m) <= Pow2(t)
    ensures Lengths(l', top, t) && l' == l[x := l[y]] && l[y] >= 1 && Kraft(l', top, t, p, m) <= Pow2(t)
  {
    var e := l[y];
    l' := l[x := e];
    KraftUpdate(l, top, t, p, m, x, e);
    var q := WholeUnits(l', top, t, p, m, m, e);
    Pow2Add(e, t - e);
    NoMore(q, Pow2(e), Pow2(t - e));
    RootSumAtLeast(Units(l', top, t), p, m, m, x, y);
  }

  /** The lightest two roots share the greatest length: no more cost, no more than one in all. */
  lemma Levelled(f: seq<int>, l: seq<int>, top: int, t: nat, p: seq<int>, m: int, x: int, y: int) returns (l': seq<int>)
    requires Lengths(l, top, t) && 0 <= m <= top < |f| && top < |p| && Lightest(f, p, m, x, y)
    requires Kraft(l, top, t, p, m) <= Pow2(t)
    ensures Lengths(l', top, t) && l'[x] == l'[y] >= 1
    ensures Kraft(l', top, t, p, m) <= Pow2(t) && Cost(f, l', p, m) <= Cost(f, l, p, m)
  {
    var u := Deepest(l, p, m, 0, x);
    var l1 := Exchanged(f, l, top, t, p, m, x, u);
    assert forall v :: Tops(p, m, v) ==> l1[v] <= l1[x];
    u := Deepest(l1, p, m, x, y);
    var l2 := Exchanged(f, l1, top, t, p, m, y, u);
    l' := Shortened(l2, top, t, p, m, x, y);
    CostUpdate(f, l2, p, m, x, l2[y]);
    LessTimes(f[x], l2[y], l2[x]);
  }

  lemma LessTimes(f: int, x: int, y: int)
    requires 0 <= f && x <= y
    ensures f * x <= f * y
  {
    assert f * (y - x) >= 0;
  }

  // ---- Joining them ----

  /** A root sum after the next join: its two children give way to it. */
  lemma NextSum(g: seq<int>, p: seq<int>, a: seq<int>, b: seq<int>, n: int, top: int, i: int)
    requires Forest(p, a, b, n, top) && n < i <= top < |g|
    ensures Joins(p, a, b, i)
    ensures RootSum(g, p, i, i) == RootSum(g, p, i - 1, i - 1) - g[a[i]] - g[b[i]] + g[i]
  {
    assert Joins(p, a, b, i) && Rooted(p, a, b, n, top, i);
    RootSumJoin(g, p, a, b, n, top, i, i - 1);
  }

  lemma JoinNumbers(f: int, g: int, e: int)
    ensures f * e + g * e - (f + g) * (e - 1) == f + g
  {
  }

  /** The join of two roots of length e is given length e - 1. */
  lemma Merged(f: seq<int>, l: seq<int>, t: nat, p: seq<int>, a: seq<int>, b: seq<int>, n: int, top: int, i: int)
    returns (l': seq<int>)
    requires Greedy(f, p, a, b, n, top) && n < i <= top && Lengths(l, top, t)
    requires Joins(p, a, b, i) && l[a[i]] == l[b[i]] >= 1
    ensures Lengths(l', top, t) && Kraft(l', top, t, p, i) == Kraft(l, top, t, p, i - 1)
    ensures Cost(f, l', p, i) == Cost(f, l, p, i - 1) - f[i]
  {
    var e := l[a[i]];
    l' := l[i := e - 1];
    assert Greedily(f, p, a, b, i);
    CostUpdate(f, l, p, i - 1, i, e - 1);
    KraftUpdate(l, top, t, p, i - 1, i, e - 1);
    NextSum(Costs(f, l'), p, a, b, n, top, i);
    NextSum(Units(l', top, t), p, a, b, n, top, i);
    JoinNumbers(f[a[i]], f[b[i]], e);
    assert Pow2(t - (e - 1)) == 2 * Pow2(t - e);
  }

  /** The weights of the joins after m. */
  ghost function JoinSum(f: seq<int>, m: int, top: int): int
    requires 0 <= m <= top < |f|
    decreases top - m
  {
    if m == top then 0 else f[m + 1] + JoinSum(f, m + 1, top)
  }

  lemma {:induction false} RootSumNonNegative(f: seq<int>, p: seq<int>, m: int, k: nat)
    requires k < |f| && k < |p| && NonNegative(f)
    ensures RootSum(f, p, m, k) >= 0
  {
    if k > 0 { RootSumNonNegative(f, p, m, k - 1); }
  }

  /** No lengths for the roots that satisfy Kraft's inequality cost less than the joins to come. */
  lemma {:induction false} NoneCheaper(f: seq<int>, l: seq<int>, t: nat, p: seq<int>, a: seq<int>, b: seq<int>, n: int, top: int, m: int)
    requires Greedy(f, p, a, b, n, top) && n <= m <= top && Lengths(l, top, t) && Kraft(l, top, t, p, m) <= Pow2(t)
    ensures Cost(f, l, p, m) >= JoinSum(f, m, top)
    decreases top - m
  {
    if m == top {
      assert NonNegative(Costs(f, l)) by {
        forall v | 0 <= v < |l| ensures f[v] * l[v] >= 0 { LessTimes(f[v], 0, l[v]); }
      }
      RootSumNonNegative(Costs(f, l), p, m, m);
    } else {
      var i := m + 1;
      assert Greedily(f, p, a, b, i) && Joins(p, a, b, i);
      var l1 := Levelled(f, l, top, t, p, m, a[i], b[i]);
      var l2 := Merged(f, l1, t, p, a, b, n, top, i);
      NoneCheaper(f, l2, t, p, a, b, n, top, i);
    }
  }

  // ---- The depths cost exactly the joins ----

  ghost predicate IsDepths(l: seq<int>, p: seq<int>, a: seq<int>, b: seq<int>, n: int, top: int) {
    Forest(p, a, b, n, top) && |l| == top + 1 && forall v :: 1 <= v <= top ==> l[v] == Depth(p, a, b, n, top, v)
  }

  lemma {:induction false} DepthsCost(f: seq<int>, l: seq<int>, p: seq<int>, a: seq<int>, b: seq<int>, n: int, top: int, m: int)
    requires Greedy(f, p, a, b, n, top) && n <= m <= top && IsDepths(l, p, a, b, n, top)
    requires p[top] < 0 && forall v :: 1 <= v < top ==> p[v] >= 0
    ensures Cost(f, l, p, m) == JoinSum(f, m, top)
    decreases top - m
  {
    if m == top {
      RootSumSingle(Costs(f, l), p, a, b, n, top, top);
    } else {
      var i := m + 1;
      DepthsCost(f, l, p, a, b, n, top, i);
      NextSum(Costs(f, l), p, a, b, n, top, i);
      assert Greedily(f, p, a, b, i);
      JoinNumbers(f[a[i]], f[b[i]], 1 + l[i]);
    }
  }

  // ---- In terms of symbols ----

  /** The number of bits a message takes whose symbols occur as often as w says. */
  ghost function Bill(w: seq<int>, len: seq<int>): int
    requires |w| == |len|
  {
    if |w| == 0 then 0 else Bill(w[..|w| - 1], len[..|len| - 1]) + w[|w| - 1] * len[|len| - 1]
  }

  /** Lengths that some prefix code has. */
  ghost predicate PrefixLengths(len: seq<int>, lim: nat) {
    Between(len, 0, lim) && KraftSum(len, lim) <= Pow2(lim)
  }

  /** No prefix code is shorter. */
  ghost predicate Optimal(w: seq<int>, len: seq<int>) {
    |w| == |len| && forall other, lim :: |other| == |w| && PrefixLengths(other, lim) ==> Bill(w, len) <= Bill(w, other)
  }

  lemma {:induction false} BillIsSum(w: seq<int>, len: seq<int>, f: seq<int>, l: seq<int>, k: nat)
    requires k <= |w| == |len| < |l| <= |f|
    requires forall i :: 0 <= i < |w| ==> f[i + 1] == w[i] && l[i + 1] == len[i]
    ensures Bill(w[..k], len[..k]) == Sum(Costs(f, l), k)
  {
    if k > 0 {
      BillIsSum(w, len, f, l, k - 1);
      assert w[..k][..k - 1] == w[..k - 1] && len[..k][..k - 1] == len[..k - 1];
      assert f[(k - 1) + 1] == w[k - 1] && l[(k - 1) + 1] == len[k - 1];
    }
  }

  lemma LeavesBill(w: seq<int>, len: seq<int>, f: seq<int>, l: seq<int>, p: seq<int>, a: seq<int>, b: seq<int>, n: int, top: int)
    requires Forest(p, a, b, n, top) && |w| == |len| == n && |l| == top + 1 <= |f|
    requires forall i :: 0 <= i < |w| ==> f[i + 1] == w[i] && l[i + 1] == len[i]
    ensures Bill(w, len) == Cost(f, l, p, n)
  {
    BillIsSum(w, len, f, l, n);
    assert w[..n] == w && len[..n] == len;
    LeavesAreRoots(Costs(f, l), p, a, b, n, top, n);
  }

  lemma Spread(len: seq<int>, top: int, lim: nat) returns (l: seq<int>)
    requires |len| <= top && Between(len, 0, lim)
    ensures Lengths(l, top, lim) && forall i :: 0 <= i < |len| ==> l[i + 1] == len[i]
  {
    l := [0] + len + seq(top - |len|, _ => 0);
  }

  lemma LeavesKraft(len: seq<int>, l: seq<int>, lim: nat, p: seq<int>, a: seq<int>, b: seq<int>, n: int, top: int)
    requires Forest(p, a, b, n, top) && |len| == n && Lengths(l, top, lim) && Between(len, 0, lim)
    requires forall i :: 0 <= i < n ==> l[i + 1] == len[i]
    ensures Kraft(l, top, lim, p, n) == KraftSum(len, lim)
  {
    var u := Units(l, top, lim);
    KraftIsShares(len, u, lim, n);
    assert len[..n] == len;
    LeavesAreRoots(u, p, a, b, n, top, n);
  }

  /** Huffman's theorem. */
  lemma TreeOptimal(w: seq<int>, len: seq<int>, f: seq<int>, p: seq<int>, a: seq<int>, b: seq<int>, n: int, top: int)
    requires Greedy(f, p, a, b, n, top) && p[top] < 0 && (forall v :: 1 <= v < top ==> p[v] >= 0)
    requires LeafDepths(len, p, a, b, n, top) && |w| == n && forall i :: 0 <= i < n ==> f[i + 1] == w[i]
    ensures Optimal(w, len)
  {
    var d := seq(top + 1, v requires 0 <= v <= top => if v == 0 then 0 else Depth(p, a, b, n, top, v));
    LeavesBill(w, len, f, d, p, a, b, n, top);
    DepthsCost(f, d, p, a, b, n, top, n);
    forall other, lim | |other| == |w| && PrefixLengths(other, lim) ensures Bill(w, len) <= Bill(w, other) {
      var l := Spread(other, top, lim);
      LeavesKraft(other, l, lim, p, a, b, n, top);
      LeavesBill(w, other, f, l, p, a, b, n, top);
      NoneCheaper(f, l, lim, p, a, b, n, top, n);
    }
  }

  // ---- What an optimal code is like ----

  lemma {:induction false} BillUpdate(w: seq<int>, len: seq<int>, i: int, z: int)
    requires |w| == |len| && 0 <= i < |w|
    ensures Bill(w, len[i := z]) == Bill(w, len) - w[i] * len[i] + w[i] * z
  {
    var n := |w| - 1;
    if i < n {
      BillUpdate(w[..n], len[..n], i, z);
      assert len[i := z][..n] == len[..n][i := z];
    } else {
      assert len[i := z][..n] == len[..n];
    }
  }

  lemma {:induction false} KraftSumUpdate(len: seq<int>, lim: nat, i: int, z: int)
    requires 0 <= i < |len| && Between(len, 0, lim) && 0 <= z <= lim
    ensures KraftSum(len[i := z], lim) == KraftSum(len, lim) - Pow2(lim - len[i]) + Pow2(lim - z)
  {
    var n := |len| - 1;
    if i < n {
      KraftSumUpdate(len[..n], lim, i, z);
      assert len[i := z][..n] == len[..n][i := z];
    } else {
      assert len[i := z][..n] == len[..n];
    }
  }

  /** In an optimal code a more frequent symbol is not longer. */
  lemma FrequentIsShort(w: seq<int>, len: seq<int>, lim: nat, i: int, j: int)
    requires Optimal(w, len) && PrefixLengths(len, lim) && 0 <= i < |w| && 0 <= j < |w| && w[i] > w[j]
    ensures len[i] <= len[j]
  {
    if len[i] > len[j] {
      var l := len[i := len[j]];
      var other := l[j := len[i]];
      BillUpdate(w, len, i, len[j]);
      BillUpdate(w, l, j, len[i]);
      KraftSumUpdate(len, lim, i, len[j]);
      KraftSumUpdate(l, lim, j, len[i]);
      assert PrefixLengths(other, lim);
      Rearranged(w[j], w[i], len[j], len[i]);
      assert false;
    }
  }
}
