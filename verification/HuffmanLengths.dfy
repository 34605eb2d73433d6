/** BZ2_hbMakeCodeLengths of huffman.c: code lengths from symbol frequencies. */
module HuffmanLengths {
  import opened Sequences
  import opened Bits
  import opened CanonicalCode
  import opened HuffmanTree
  import opened HuffmanHeap
  import opened HuffmanOptimal

  // ---- Keys: a weight in the upper 24 bits, a height in the low 8 ----

  function Mass(z: int): int { z / 256 }
  function Height(z: int): (h: nat) { z % 256 }
  function Max(x: int, y: int): int { if x > y then x else y }

  /** ADDWEIGHTS. */
  function AddWeights(z1: nat, z2: nat): nat {
    BitOr(Mass(z1) * 256 + Mass(z2) * 256, 1 + Max(Height(z1), Height(z2)))
  }

  lemma AddWeightsAdds(z1: nat, z2: nat)
    requires Height(z1) < 255 && Height(z2) < 255
    ensures Mass(AddWeights(z1, z2)) == Mass(z1) + Mass(z2)
    ensures Height(AddWeights(z1, z2)) == 1 + Max(Height(z1), Height(z2))
  {
    var k: nat := 8;
    var m, h := Mass(z1) + Mass(z2), 1 + Max(Height(z1), Height(z2));
    assert Pow2(k) == 256 by { Pow2Table(); }
    assert m * 256 == Mass(z1) * 256 + Mass(z2) * 256;
    BitOrDisjoint(m * 256, h, k);
  }

  // ---- What joining the two lightest nodes keeps ----

  /** Join i adds up the weights of its children and is one higher than the higher. */
  ghost predicate Added(w: seq<int>, a: seq<int>, b: seq<int>, i: int)
    requires 0 <= i < |w| && i < |a| && i < |b|
  {
    && 0 <= a[i] < |w| && 0 <= b[i] < |w| && Mass(w[i]) == Mass(w[a[i]]) + Mass(w[b[i]])
    && Height(w[i]) == 1 + Max(Height(w[a[i]]), Height(w[b[i]]))
  }

  ghost predicate Leaves(w: seq<int>, n: int) {
    0 <= n < |w| && forall v :: 1 <= v <= n ==> w[v] >= 256 && Height(w[v]) == 0
  }

  ghost predicate Weighed(w: seq<int>, p: seq<int>, a: seq<int>, b: seq<int>, n: int, m: int) {
    && Forest(p, a, b, n, m) && m < |w| && Leaves(w, n)
    && (forall v :: 1 <= v <= m ==> w[v] >= 256)
    && (forall i :: n < i <= m ==> Added(w, a, b, i))
  }

  /** No root is lighter than the last node joined, nor than its height allows; and the last
      node joined was at least as heavy as the height of any root's higher child allows. */
  ghost predicate Grown(z: int, last: int) {
    && Least(Height(z)) <= Mass(z) && last <= Mass(z)
    && (Height(z) >= 1 ==> Least(Height(z) - 1) <= last)
  }

  ghost predicate Growing(w: seq<int>, p: seq<int>, m: int, last: int) {
    m < |w| && m < |p| && forall v :: 1 <= v <= m && p[v] < 0 ==> Grown(w[v], last)
  }

  /** Every join took the lightest root there was and the lightest of the others. */
  ghost predicate Picks(w: seq<int>, p: seq<int>, a: seq<int>, b: seq<int>, n: int, m: int) {
    m < |a| && m < |b| && forall i :: 0 <= n < i <= m ==> Lightest(w, p, i - 1, a[i], b[i])
  }

  /** What was lightest among the first nodes is so still when the roots x and y are joined. */
  lemma StaysLightest(w: seq<int>, p: seq<int>, k: int, c: int, d: int, m: int, x: int, y: int, z: int)
    requires Lightest(w, p, k, c, d) && k < m && m + 1 < |p| && m + 1 < |w|
    requires 1 <= x <= m && 1 <= y <= m && p[x] < 0 && p[y] < 0
    ensures Lightest(w[m + 1 := z], p[x := m + 1][y := m + 1][m + 1 := -1], k, c, d)
  {
    var w', p' := w[m + 1 := z], p[x := m + 1][y := m + 1][m + 1 := -1];
    assert forall v :: Tops(p', k, v) <==> Tops(p, k, v);
  }

  lemma NewLightest(w: seq<int>, p: seq<int>, a: seq<int>, b: seq<int>, n: int, m: int, x: int, y: int, z: int)
    requires Forest(p, a, b, n, m) && m + 1 < |p| && m + 1 < |w|
    requires 1 <= x <= m && 1 <= y <= m && x != y && p[x] < 0 && p[y] < 0 && 0 <= w[x] <= w[y]
    requires forall v :: 1 <= v <= m && p[v] < 0 && v != x ==> w[y] <= w[v]
    ensures Lightest(w[m + 1 := z], p[x := m + 1][y := m + 1][m + 1 := -1], m, x, y)
  {
    var w', p' := w[m + 1 := z], p[x := m + 1][y := m + 1][m + 1 := -1];
    forall v | Tops(p', m, v) && v != x ensures w'[y] <= w'[v] {
      assert Rooted(p, a, b, n, m, v);
    }
  }

  lemma JoinPicks(w: seq<int>, p: seq<int>, a: seq<int>, b: seq<int>, n: int, m: int, x: int, y: int, z: int)
    requires Forest(p, a, b, n, m) && Picks(w, p, a, b, n, m) && |a| == |b| == m + 1 && m + 1 < |p| && m + 1 < |w|
    requires 1 <= x <= m && 1 <= y <= m && x != y && p[x] < 0 && p[y] < 0 && 0 <= w[x] <= w[y]
    requires forall v :: 1 <= v <= m && p[v] < 0 && v != x ==> w[y] <= w[v]
    ensures Picks(w[m + 1 := z], p[x := m + 1][y := m + 1][m + 1 := -1], a + [x], b + [y], n, m + 1)
  {
    var w', p', a', b' := w[m + 1 := z], p[x := m + 1][y := m + 1][m + 1 := -1], a + [x], b + [y];
    forall i | 0 <= n < i <= m + 1 ensures Lightest(w', p', i - 1, a'[i], b'[i]) {
      if i <= m {
        StaysLightest(w, p, i - 1, a[i], b[i], m, x, y, z);
      } else {
        NewLightest(w, p, a, b, n, m, x, y, z);
      }
    }
  }

  /** Keys in order are weights in order. */
  lemma LightestMasses(w: seq<int>, p: seq<int>, k: int, x: int, y: int, m: int)
    requires Lightest(w, p, k, x, y) && k <= m < |w|
    ensures Lightest(Masses(w, m), p, k, x, y)
  {
  }

  /** The tree is the one of Huffman's theorem for the weights without the heights. */
  lemma PicksAreGreedy(w: seq<int>, p: seq<int>, a: seq<int>, b: seq<int>, n: int, m: int)
    requires Weighed(w, p, a, b, n, m) && Picks(w, p, a, b, n, m)
    ensures Greedy(Masses(w, m), p, a, b, n, m)
  {
    var f := Masses(w, m);
    forall i | n < i <= m ensures Greedily(f, p, a, b, i) {
      assert Added(w, a, b, i) && Joins(p, a, b, i);
      LightestMasses(w, p, i - 1, a[i], b[i], m);
    }
  }

  /** The weight of all leaves. */
  ghost function Total(w: seq<int>, n: nat): int
    requires n < |w|
  {
    if n == 0 then 0 else Total(w, n - 1) + Mass(w[n])
  }

  lemma {:induction false} TotalFrame(w: seq<int>, w': seq<int>, n: nat)
    requires n < |w| && n < |w'| && forall v :: 1 <= v <= n ==> w[v] == w'[v]
    ensures Total(w, n) == Total(w', n)
  {
    if n > 0 { TotalFrame(w, w', n - 1); }
  }

  lemma {:induction false} TotalIsSum(f: seq<int>, w: seq<int>, n: nat)
    requires n < |w| && n < |f| && forall v :: 1 <= v <= n ==> f[v] == Mass(w[v])
    ensures Total(w, n) == Sum(f, n)
  {
    if n > 0 { TotalIsSum(f, w, n - 1); }
  }

  ghost function Masses(w: seq<int>, m: int): (f: seq<int>)
    requires 0 <= m < |w|
    ensures |f| == m + 1 && f[0] == 0 && forall v :: 1 <= v <= m ==> f[v] == Mass(w[v])
  {
    seq(m + 1, v requires 0 <= v <= m => if v == 0 then 0 else Mass(w[v]))
  }

  lemma MassesConserved(w: seq<int>, p: seq<int>, a: seq<int>, b: seq<int>, n: int, m: int)
    requires Weighed(w, p, a, b, n, m)
    ensures RootSum(Masses(w, m), p, m, m) == Total(w, n)
    ensures NonNegative(Masses(w, m))
    ensures forall i :: n < i <= m ==> Joins(p, a, b, i) && Masses(w, m)[i] == Masses(w, m)[a[i]] + Masses(w, m)[b[i]]
  {
    var f := Masses(w, m);
    forall i | n < i <= m ensures Joins(p, a, b, i) && f[i] == f[a[i]] + f[b[i]] {
      assert Joins(p, a, b, i) && Added(w, a, b, i);
    }
    RootSumConserved(f, p, a, b, n, m, m);
    LeavesAreRoots(f, p, a, b, n, m, n);
    TotalIsSum(f, w, n);
  }

  /** Two roots together weigh at most the total. */
  lemma TwoRoots(w: seq<int>, p: seq<int>, a: seq<int>, b: seq<int>, n: int, m: int, x: int, y: int)
    requires Weighed(w, p, a, b, n, m) && 1 <= x <= m && 1 <= y <= m && x != y && p[x] < 0 && p[y] < 0
    ensures Mass(w[x]) + Mass(w[y]) <= Total(w, n)
  {
    MassesConserved(w, p, a, b, n, m);
    RootSumAtLeast(Masses(w, m), p, m, m, x, y);
  }

  /** A tree of allowed weight is far from 255 high. */
  lemma HeightBound(z: int, last: int)
    requires Grown(z, last) && Mass(z) < 0x800000
    ensures Height(z) < 48
  {
    var h := Height(z);
    if h >= 48 {
      LeastDoubles(h);
      Pow2Monotone(24, h / 2);
      Pow2Table();
    }
  }

  /** The new key: the Fibonacci bound passes to the join. */
  lemma JoinGrown(x: nat, y: nat, z: int, last: int)
    requires Grown(x, last) && Grown(y, last) && Mass(x) <= Mass(y) && Mass(x) >= 1
    requires Mass(z) == Mass(x) + Mass(y) && Height(z) == 1 + Max(Height(x), Height(y))
    ensures Grown(z, Mass(y))
  {
  }

  lemma JoinForest(p: seq<int>, a: seq<int>, b: seq<int>, n: int, m: int, x: int, y: int)
    requires Forest(p, a, b, n, m) && |a| == |b| == m + 1 && m + 1 < |p|
    requires 1 <= x <= m && 1 <= y <= m && x != y && p[x] < 0 && p[y] < 0
    ensures Forest(p[x := m + 1][y := m + 1][m + 1 := -1], a + [x], b + [y], n, m + 1)
  {
    var p', a', b', t := p[x := m + 1][y := m + 1][m + 1 := -1], a + [x], b + [y], m + 1;
    forall v | 1 <= v <= t ensures Rooted(p', a', b', n, t, v) {
      if v <= m { assert Rooted(p, a, b, n, m, v); }
    }
    forall i | n < i <= m + 1 ensures Joins(p', a', b', i) {
      if i <= m { assert Joins(p, a, b, i); }
    }
  }

  lemma JoinWeighed(w: seq<int>, p: seq<int>, a: seq<int>, b: seq<int>, n: int, m: int, x: int, y: int, z: int)
    requires Weighed(w, p, a, b, n, m) && |a| == |b| == m + 1 && m + 1 < |p| && m + 1 < |w|
    requires 1 <= x <= m && 1 <= y <= m && x != y && p[x] < 0 && p[y] < 0
    requires Mass(z) == Mass(w[x]) + Mass(w[y]) && Height(z) == 1 + Max(Height(w[x]), Height(w[y]))
    ensures Weighed(w[m + 1 := z], p[x := m + 1][y := m + 1][m + 1 := -1], a + [x], b + [y], n, m + 1)
    ensures Total(w[m + 1 := z], n) == Total(w, n)
  {
    JoinForest(p, a, b, n, m, x, y);
    var w', a', b' := w[m + 1 := z], a + [x], b + [y];
    forall i | n < i <= m + 1 ensures Added(w', a', b', i) {
      if i <= m { assert Added(w, a, b, i) && Joins(p, a, b, i); }
    }
    TotalFrame(w, w', n);
  }

  lemma JoinGrowing(w: seq<int>, p: seq<int>, m: int, last: int, x: int, y: int, z: int)
    requires Growing(w, p, m, last) && m + 1 < |p| && m + 1 < |w|
    requires 1 <= x <= m && 1 <= y <= m && x != y && p[x] < 0 && p[y] < 0 && 256 <= w[x] <= w[y]
    requires forall v :: 1 <= v <= m && p[v] < 0 && v != x ==> w[y] <= w[v]
    requires Mass(z) == Mass(w[x]) + Mass(w[y]) && Height(z) == 1 + Max(Height(w[x]), Height(w[y]))
    ensures Growing(w[m + 1 := z], p[x := m + 1][y := m + 1][m + 1 := -1], m + 1, Mass(w[y]))
  {
    assert Grown(w[x], last) && Grown(w[y], last);
    JoinGrown(w[x], w[y], z, last);
    forall v | 1 <= v <= m && p[v] < 0 && v != x && v != y ensures Grown(w[v], Mass(w[y])) {
      assert Grown(w[v], last);
    }
  }

  // ---- Taking nodes from the heap and putting them in ----

  ghost predicate IsRoot(p: seq<int>, m: int, v: int) { 1 <= v <= m < |p| && p[v] < 0 }

  /** The heap holds each root once, and nothing else. */
  ghost predicate HoldsRoots(h: seq<int>, nHeap: int, p: seq<int>, m: int) {
    0 <= nHeap < |h| && forall v :: Count(Nodes(h, nHeap), v) == if IsRoot(p, m, v) then 1 else 0
  }

  lemma {:induction false} CountPositive(s: seq<int>, k: int)
    requires 0 <= k < |s|
    ensures Count(s, s[k]) >= 1
  {
    if k < |s| - 1 { CountPositive(s[..|s| - 1], k); }
  }

  lemma {:induction false} CountFinds(s: seq<int>, x: int) returns (k: int)
    requires Count(s, x) >= 1
    ensures 0 <= k < |s| && s[k] == x
  {
    if s[|s| - 1] == x { k := |s| - 1; } else { k := CountFinds(s[..|s| - 1], x); }
  }

  /** The counts when the last entry is moved to the top and the top taken away. */
  lemma TopRemoved(h: seq<int>, n: int, v: int)
    requires 1 <= n < |h|
    ensures Count(Nodes(h[1 := h[n]], n - 1), v) == Count(Nodes(h, n), v) - (if h[1] == v then 1 else 0)
  {
    var s := Nodes(h, n);
    var t := s[0 := s[n - 1]];
    assert Nodes(h[1 := h[n]], n - 1) == t[..n - 1];
    CountUpdate(s, 0, s[n - 1], v);
  }

  lemma LastAdded(h: seq<int>, n: int, x: int, v: int)
    requires 0 <= n && n + 1 < |h|
    ensures Count(Nodes(h[n + 1 := x], n + 1), v) == Count(Nodes(h, n), v) + (if x == v then 1 else 0)
  {
    assert Nodes(h[n + 1 := x], n + 1)[..n] == Nodes(h, n);
  }

  lemma SinkFromTop(h: seq<int>, w: seq<int>, n: int)
    requires n >= 1 && Entries(h, w, n) && HeapOrder(Keys(h, w, n))
    ensures Entries(h[1 := h[n]], w, n - 1) && Sinking(Keys(h[1 := h[n]], w, n - 1), 1)
  {
    var q, q' := Keys(h, w, n), Keys(h[1 := h[n]], w, n - 1);
    forall k | 2 <= k < |q'| && k / 2 != 1 ensures Ordered(q', k) {
      assert Ordered(q, k);
    }
  }

  /** Takes the lightest node off the heap. */
  method TakeLightest(heap: array<int>, weight: array<int>, nHeap: int) returns (x: int)
    requires heap != weight && nHeap >= 1 && IsHeap(heap[..], weight[..], nHeap)
    modifies heap
    ensures IsHeap(heap[..], weight[..], nHeap - 1)
    ensures x == old(heap[1]) && 0 < x < weight.Length
    ensures forall v :: Count(Nodes(heap[..], nHeap - 1), v) == Count(Nodes(old(heap[..]), nHeap), v) - (if x == v then 1 else 0)
    ensures forall k :: 1 <= k <= nHeap ==> 0 <= old(heap[k]) < weight.Length && weight[x] <= weight[old(heap[k])]
  {
    assert UnfoldHeap(0);
    ghost var h, w := heap[..], weight[..];
    ghost var q := Keys(h, w, nHeap);
    forall k | 1 <= k <= nHeap ensures 0 <= h[k] < |w| && w[h[1]] <= w[h[k]] {
      TopIsLeast(q, k);
    }
    SinkFromTop(h, w, nHeap);
    forall v ensures Count(Nodes(h[1 := h[nHeap]], nHeap - 1), v) == Count(Nodes(h, nHeap), v) - (if h[1] == v then 1 else 0) {
      TopRemoved(h, nHeap, v);
    }
    x := heap[1];
    heap[1] := heap[nHeap];
    assert heap[..] == h[1 := h[nHeap]];
    DownHeap(heap, weight, nHeap - 1);
  }

  lemma RiseFromLast(h: seq<int>, w: seq<int>, n: int, x: int)
    requires 0 <= n && n + 1 < |h| && Entries(h, w, n) && HeapOrder(Keys(h, w, n)) && 0 <= x < |w| && w[x] > 0
    ensures Entries(h[n + 1 := x], w, n + 1) && Rising(Keys(h[n + 1 := x], w, n + 1), n + 1)
  {
    var q, q' := Keys(h, w, n), Keys(h[n + 1 := x], w, n + 1);
    forall k | 2 <= k < |q'| && k != n + 1 ensures Ordered(q', k) {
      assert Ordered(q, k);
    }
  }

  /** Puts a node on the heap. */
  method PutNode(heap: array<int>, weight: array<int>, nHeap: int, x: int)
    requires heap != weight && 0 <= nHeap && nHeap + 1 < heap.Length && IsHeap(heap[..], weight[..], nHeap)
    requires 0 <= x < weight.Length && weight[x] > 0
    modifies heap
    ensures IsHeap(heap[..], weight[..], nHeap + 1)
    ensures forall v :: Count(Nodes(heap[..], nHeap + 1), v) == Count(Nodes(old(heap[..]), nHeap), v) + (if x == v then 1 else 0)
  {
    assert UnfoldHeap(0);
    ghost var h, w := heap[..], weight[..];
    RiseFromLast(h, w, nHeap, x);
    forall v ensures Count(Nodes(h[nHeap + 1 := x], nHeap + 1), v) == Count(Nodes(h, nHeap), v) + (if x == v then 1 else 0) {
      LastAdded(h, nHeap, x, v);
    }
    heap[nHeap + 1] := x;
    assert heap[..] == h[nHeap + 1 := x];
    UpHeap(heap, weight, nHeap + 1);
  }

  // ---- Building the tree ----

  /** The state between joins: m nodes, nHeap of them roots, on the heap. */
  ghost predicate Stage(h: seq<int>, w: seq<int>, p: seq<int>, a: seq<int>, b: seq<int>, nHeap: int, n: int, m: int, last: int) {
    && |a| == |b| == m + 1 && nHeap + m == 2 * n
    && IsHeap(h, w, nHeap) && HoldsRoots(h, nHeap, p, m)
    && Building(w, p, a, b, n, m, last)
  }

  /** A definition guarded by "for every u with UnfoldTree(u)" stays folded for the verifier until
      UnfoldTree is mentioned. */
  ghost predicate UnfoldTree(u: int) { true }

  /** The tree built so far; kept folded until unfolded. */
  ghost predicate Building(w: seq<int>, p: seq<int>, a: seq<int>, b: seq<int>, n: int, m: int, last: int) {
    && 1 <= n <= m < |w| && m < |p|
    && forall u {:trigger UnfoldTree(u)} :: UnfoldTree(u) ==>
         Weighed(w, p, a, b, n, m) && Growing(w, p, m, last) && Picks(w, p, a, b, n, m)
  }

  lemma HeldIsRoot(h: seq<int>, nHeap: int, p: seq<int>, m: int, k: int)
    requires HoldsRoots(h, nHeap, p, m) && 1 <= k <= nHeap
    ensures IsRoot(p, m, h[k])
  {
    CountPositive(Nodes(h, nHeap), k - 1);
  }

  lemma RootIsHeld(h: seq<int>, nHeap: int, p: seq<int>, m: int, v: int) returns (k: int)
    requires HoldsRoots(h, nHeap, p, m) && IsRoot(p, m, v)
    ensures 1 <= k <= nHeap && h[k] == v
  {
    k := CountFinds(Nodes(h, nHeap), v);
    k := k + 1;
  }

  /** The heap with x already taken off: it holds the other roots. */
  ghost predicate HoldsOthers(h: seq<int>, nHeap: int, p: seq<int>, m: int, x: int) {
    0 <= nHeap < |h| && forall v :: Count(Nodes(h, nHeap), v) == if IsRoot(p, m, v) && v != x then 1 else 0
  }

  /** Takes the two lightest roots. */
  method TakePair(heap: array<int>, weight: array<int>, nHeap: int, ghost p: seq<int>, ghost m: int) returns (n1: int, n2: int)
    requires heap != weight && nHeap >= 2 && IsHeap(heap[..], weight[..], nHeap)
    requires HoldsRoots(heap[..], nHeap, p, m)
    modifies heap
    ensures IsHeap(heap[..], weight[..], nHeap - 2)
    ensures IsRoot(p, m, n1) && IsRoot(p, m, n2) && n1 != n2 && 0 < n1 < weight.Length && 0 < n2 < weight.Length
    ensures weight[n1] <= weight[n2]
    ensures forall v :: IsRoot(p, m, v) && v != n1 ==> 0 <= v < weight.Length && weight[n2] <= weight[v]
    ensures forall v :: Count(Nodes(heap[..], nHeap - 2), v) == if IsRoot(p, m, v) && v != n1 && v != n2 then 1 else 0
  {
    ghost var h0 := heap[..];
    HeldIsRoot(h0, nHeap, p, m, 1);
    n1 := TakeLightest(heap, weight, nHeap);
    ghost var h1 := heap[..];
    assert HoldsOthers(h1, nHeap - 1, p, m, n1);
    CountPositive(Nodes(h1, nHeap - 1), 0);
    n2 := TakeLightest(heap, weight, nHeap - 1);
    assert IsRoot(p, m, n2);
    ghost var k := RootIsHeld(h0, nHeap, p, m, n2);
    forall v | IsRoot(p, m, v) && v != n1 ensures 0 <= v < weight.Length && weight[n2] <= weight[v] {
      var j := CountFinds(Nodes(h1, nHeap - 1), v);
      assert h1[j + 1] == v;
    }
  }

  ghost function Joined(p: seq<int>, m: int, x: int, y: int): seq<int>
    requires 0 <= x < |p| && 0 <= y < |p| && 0 <= m && m + 1 < |p|
  {
    p[x := m + 1][y := m + 1][m + 1 := -1]
  }

  /** What the join of the two lightest roots keeps. */
  lemma JoinPair(w: seq<int>, p: seq<int>, a: seq<int>, b: seq<int>, n: int, m: int, last: int, x: int, y: int)
    requires Building(w, p, a, b, n, m, last) && |a| == |b| == m + 1 && m + 1 < |p| && m + 1 < |w|
    requires IsRoot(p, m, x) && IsRoot(p, m, y) && x != y && w[x] <= w[y] && Total(w, n) < 0x800000
    requires forall v :: IsRoot(p, m, v) && v != x ==> w[y] <= w[v]
    ensures w[x] >= 0 && w[y] >= 0
    ensures var z := AddWeights(w[x], w[y]);
      z > 0 && Building(w[m + 1 := z], Joined(p, m, x, y), a + [x], b + [y], n, m + 1, Mass(w[y]))
  {
    assert UnfoldTree(0);
    assert Grown(w[x], last) && Grown(w[y], last);
    TwoRoots(w, p, a, b, n, m, x, y);
    HeightBound(w[x], last);
    HeightBound(w[y], last);
    AddWeightsAdds(w[x], w[y]);
    var z := AddWeights(w[x], w[y]);
    JoinWeighed(w, p, a, b, n, m, x, y, z);
    forall v | 1 <= v <= m && p[v] < 0 && v != x ensures w[y] <= w[v] {
      assert IsRoot(p, m, v);
    }
    JoinGrowing(w, p, m, last, x, y, z);
    JoinPicks(w, p, a, b, n, m, x, y, z);
  }

  lemma JoinHolds(h: seq<int>, h': seq<int>, nHeap: int, p: seq<int>, m: int, x: int, y: int)
    requires 0 <= nHeap < |h| && nHeap + 1 < |h'| && IsRoot(p, m, x) && IsRoot(p, m, y) && m + 1 < |p|
    requires forall v :: Count(Nodes(h, nHeap), v) == if IsRoot(p, m, v) && v != x && v != y then 1 else 0
    requires forall v :: Count(Nodes(h', nHeap + 1), v) == Count(Nodes(h, nHeap), v) + (if m + 1 == v then 1 else 0)
    ensures HoldsRoots(h', nHeap + 1, Joined(p, m, x, y), m + 1)
  {
    var t, p' := m + 1, Joined(p, m, x, y);
    forall v ensures Count(Nodes(h', nHeap + 1), v) == if IsRoot(p', t, v) then 1 else 0 {
      assert Count(Nodes(h, nHeap), v) == if IsRoot(p, m, v) && v != x && v != y then 1 else 0;
      assert IsRoot(p', t, v) <==> v == t || (IsRoot(p, m, v) && v != x && v != y);
    }
  }

  /** Makes nNodes + 1 the parent of n1 and n2. */
  method Record(weight: array<int>, parent: array<int>, nNodes: int, n1: int, n2: int)
    requires weight != parent && 0 <= nNodes && nNodes + 1 < parent.Length && nNodes + 1 < weight.Length
    requires 0 <= n1 <= nNodes && 0 <= n2 <= nNodes && weight[n1] >= 0 && weight[n2] >= 0
    modifies weight, parent
    ensures weight[..] == old(weight[..][nNodes + 1 := AddWeights(weight[n1], weight[n2])])
    ensures parent[..] == old(Joined(parent[..], nNodes, n1, n2))
  {
    parent[n1] := nNodes + 1;
    parent[n2] := nNodes + 1;
    weight[nNodes + 1] := AddWeights(weight[n1], weight[n2]);
    parent[nNodes + 1] := -1;
  }

  /** Puts the join of n1 and n2, already off the heap, on the heap. */
  method Attach(heap: array<int>, weight: array<int>, parent: array<int>, nHeap: int, nNodes: int, n1: int, n2: int)
    requires heap != weight && heap != parent && weight != parent && 0 <= nHeap && nHeap + 1 < heap.Length
    requires 0 <= nNodes && nNodes + 1 < parent.Length && nNodes + 1 < weight.Length
    requires IsRoot(parent[..], nNodes, n1) && IsRoot(parent[..], nNodes, n2) && weight[n1] >= 0 && weight[n2] >= 0
    requires AddWeights(weight[n1], weight[n2]) > 0
    requires IsHeap(heap[..], weight[..], nHeap)
    requires forall v :: Count(Nodes(heap[..], nHeap), v) == if IsRoot(parent[..], nNodes, v) && v != n1 && v != n2 then 1 else 0
    modifies heap, weight, parent
    ensures weight[..] == old(weight[..][nNodes + 1 := AddWeights(weight[n1], weight[n2])])
    ensures parent[..] == old(Joined(parent[..], nNodes, n1, n2))
    ensures IsHeap(heap[..], weight[..], nHeap + 1)
    ensures HoldsRoots(heap[..], nHeap + 1, parent[..], nNodes + 1)
  {
    ghost var h, w, p := heap[..], weight[..], parent[..];
    Record(weight, parent, nNodes, n1, n2);
    KeysUnchanged(h, w, nHeap, nNodes + 1, weight[nNodes + 1], p, nNodes);
    PutNode(heap, weight, nHeap, nNodes + 1);
    JoinHolds(h, heap[..], nHeap, p, nNodes, n1, n2);
  }

  /** One round of the joining loop. */
  method JoinLightest(heap: array<int>, weight: array<int>, parent: array<int>, nHeap: int, nNodes: int, ghost n: int,
                      ghost a: seq<int>, ghost b: seq<int>, ghost last: int)
      returns (ghost a': seq<int>, ghost b': seq<int>, ghost last': int)
    requires heap != weight && heap != parent && weight != parent && nHeap >= 2
    requires Stage(heap[..], weight[..], parent[..], a, b, nHeap, n, nNodes, last)
    requires nNodes + 1 < parent.Length && nNodes + 1 < weight.Length && Total(weight[..], n) < 0x800000
    modifies heap, weight, parent
    ensures Stage(heap[..], weight[..], parent[..], a', b', nHeap - 1, n, nNodes + 1, last')
    ensures weight[..n + 1] == old(weight[..n + 1]) && parent[nNodes + 1] < 0
  {
    ghost var w, p := weight[..], parent[..];
    var n1, n2 := TakePair(heap, weight, nHeap, p, nNodes);
    JoinPair(w, p, a, b, n, nNodes, last, n1, n2);
    Attach(heap, weight, parent, nHeap - 2, nNodes, n1, n2);
    a', b', last' := a + [n1], b + [n2], Mass(w[n2]);
  }

  /** Giving a new node its weight does not disturb the heap. */
  lemma KeysUnchanged(h: seq<int>, w: seq<int>, nHeap: int, x: int, z: int, p: seq<int>, m: int)
    requires IsHeap(h, w, nHeap) && m < x < |w| && 0 < x
    requires forall v :: Count(Nodes(h, nHeap), v) > 0 ==> IsRoot(p, m, v)
    ensures IsHeap(h, w[x := z], nHeap)
  {
    assert UnfoldHeap(0);
    forall k | 1 <= k <= nHeap ensures h[k] != x {
      CountPositive(Nodes(h, nHeap), k - 1);
    }
    assert Keys(h, w[x := z], nHeap) == Keys(h, w, nHeap);
  }

  /** Sets the sentinel and puts every leaf on the heap. */
  method LoadHeap(heap: array<int>, weight: array<int>, parent: array<int>, alphaSize: nat)
    requires heap != weight && heap != parent && weight != parent && alphaSize >= 1
    requires alphaSize + 1 < heap.Length && alphaSize < weight.Length && alphaSize < parent.Length
    requires Leaves(weight[..], alphaSize)
    modifies heap, weight, parent
    ensures IsHeap(heap[..], weight[..], alphaSize) && HoldsRoots(heap[..], alphaSize, parent[..], alphaSize)
    ensures weight[..] == old(weight[..])[0 := 0]
    ensures forall v :: 1 <= v <= alphaSize ==> parent[v] == -1
  {
    heap[0] := 0;
    weight[0] := 0;
    parent[0] := -2;
    ghost var w := weight[..];
    EmptyHeap(heap[..], w, parent[..]);
    for i := 1 to alphaSize + 1
      invariant weight[..] == w && w == old(weight[..])[0 := 0]
      invariant IsHeap(heap[..], w, i - 1) && HoldsRoots(heap[..], i - 1, parent[..], i - 1)
      invariant forall v :: 1 <= v < i ==> parent[v] == -1
    {
      ghost var h, p := heap[..], parent[..];
      parent[i] := -1;
      PutNode(heap, weight, i - 1, i);
      LeafHolds(h, heap[..], p, parent[..], i);
    }
  }

  lemma EmptyHeap(h: seq<int>, w: seq<int>, p: seq<int>)
    requires |h| > 1 && |w| > 0 && |p| > 0 && h[0] == 0 && w[0] == 0
    ensures IsHeap(h, w, 0) && HoldsRoots(h, 0, p, 0)
  {
    assert Nodes(h, 0) == [];
  }

  lemma LeafHolds(h: seq<int>, h': seq<int>, p: seq<int>, p': seq<int>, i: int)
    requires 1 <= i < |p| && i < |h'| && HoldsRoots(h, i - 1, p, i - 1) && p' == p[i := -1]
    requires forall v :: Count(Nodes(h', i), v) == Count(Nodes(h, i - 1), v) + (if i == v then 1 else 0)
    ensures HoldsRoots(h', i, p', i)
  {
    forall v ensures Count(Nodes(h', i), v) == if IsRoot(p', i, v) then 1 else 0 {
      assert Count(Nodes(h, i - 1), v) == if IsRoot(p, i - 1, v) then 1 else 0;
    }
  }

  lemma LeavesOnly(w: seq<int>, p: seq<int>, a: seq<int>, b: seq<int>, n: int)
    requires 1 <= n < |w| && n < |p| && Leaves(w, n) && |a| == |b| == n + 1
    requires forall v :: 1 <= v <= n ==> p[v] == -1
    ensures Building(w, p, a, b, n, n, 1)
  {
    forall v | 1 <= v <= n ensures Rooted(p, a, b, n, n, v) && Grown(w[v], 1) {
    }
  }

  /** The finished tree: one root, the last node, high only if heavy, each join the best there was. */
  ghost predicate Complete(w: seq<int>, p: seq<int>, a: seq<int>, b: seq<int>, n: int, m: int) {
    && Weighed(w, p, a, b, n, m) && Picks(w, p, a, b, n, m) && p[m] < 0 && (forall v :: 1 <= v < m ==> p[v] >= 0)
    && Least(Height(w[m])) <= Total(w, n)
  }

  /** A heap of one node means one root. */
  lemma OnlyRoot(h: seq<int>, p: seq<int>, m: int, u: int, v: int)
    requires HoldsRoots(h, 1, p, m) && IsRoot(p, m, u)
    ensures IsRoot(p, m, v) ==> u == v
  {
    var k := RootIsHeld(h, 1, p, m, u);
    if IsRoot(p, m, v) {
      var j := RootIsHeld(h, 1, p, m, v);
    }
  }

  lemma LastRoot(h: seq<int>, w: seq<int>, p: seq<int>, a: seq<int>, b: seq<int>, n: int, m: int, last: int)
    requires Stage(h, w, p, a, b, 1, n, m, last) && p[m] < 0
    ensures Complete(w, p, a, b, n, m)
  {
    assert UnfoldTree(0);
    assert IsRoot(p, m, m);
    forall v | 1 <= v < m ensures p[v] >= 0 {
      OnlyRoot(h, p, m, m, v);
    }
    MassesConserved(w, p, a, b, n, m);
    RootSumSingle(Masses(w, m), p, a, b, n, m, m);
    assert Grown(w[m], last);
  }

  /** Builds the tree over the leaves. */
  method BuildTree(heap: array<int>, weight: array<int>, parent: array<int>, alphaSize: nat)
      returns (nNodes: nat, ghost a: seq<int>, ghost b: seq<int>)
    requires heap != weight && heap != parent && weight != parent && 1 <= alphaSize
    requires alphaSize + 1 < heap.Length && 2 * alphaSize <= weight.Length && 2 * alphaSize <= parent.Length
    requires Leaves(weight[..], alphaSize) && Total(weight[..], alphaSize) < 0x800000
    modifies heap, weight, parent
    ensures nNodes == 2 * alphaSize - 1 && Complete(weight[..], parent[..], a, b, alphaSize, nNodes)
    ensures weight[1..alphaSize + 1] == old(weight[1..alphaSize + 1])
  {
    ghost var w0 := weight[..];
    LoadHeap(heap, weight, parent, alphaSize);
    nNodes := alphaSize;
    var nHeap := alphaSize;
    a, b := seq(alphaSize + 1, _ => 0), seq(alphaSize + 1, _ => 0);
    ghost var last, w1 := 1, weight[..];
    TotalFrame(w0, w1, alphaSize);
    LeavesOnly(w1, parent[..], a, b, alphaSize);
    while nHeap > 1
      invariant 1 <= nHeap && nNodes <= 2 * alphaSize - 1 && parent[nNodes] < 0
      invariant Stage(heap[..], weight[..], parent[..], a, b, nHeap, alphaSize, nNodes, last)
      invariant weight[..alphaSize + 1] == w1[..alphaSize + 1]
      decreases nHeap
    {
      SameTotal(w1, weight[..], alphaSize);
      a, b, last := JoinLightest(heap, weight, parent, nHeap, nNodes, alphaSize, a, b, last);
      nNodes := nNodes + 1;
      nHeap := nHeap - 1;
    }
    LastRoot(heap[..], weight[..], parent[..], a, b, alphaSize, nNodes, last);
    SameSlice(w0, w1, weight[..], alphaSize);
  }

  lemma SameTotal(w: seq<int>, w': seq<int>, n: nat)
    requires n < |w| && n < |w'| && w[..n + 1] == w'[..n + 1]
    ensures Total(w, n) == Total(w', n)
  {
    forall v | 1 <= v <= n ensures w[v] == w'[v] {
      assert w[v] == w[..n + 1][v] == w'[..n + 1][v];
    }
    TotalFrame(w, w', n);
  }

  lemma SameSlice(w0: seq<int>, w1: seq<int>, w2: seq<int>, n: nat)
    requires n < |w0| && n < |w2| && w1 == w0[0 := 0] && w2[..n + 1] == w1[..n + 1]
    ensures w2[1..n + 1] == w0[1..n + 1]
  {
    assert w2[1..n + 1] == w2[..n + 1][1..] == w1[..n + 1][1..] == w0[1..n + 1];
  }

  // ---- Reading off the lengths ----

  /** Follows the parents of i to the root. */
  method Climb(parent: array<int>, i: int, ghost a: seq<int>, ghost b: seq<int>, ghost n: int, ghost m: int) returns (j: nat)
    requires Forest(parent[..], a, b, n, m) && 1 <= i <= m
    ensures j == Depth(parent[..], a, b, n, m, i)
  {
    ghost var p := parent[..];
    j := 0;
    var k := i;
    assert Rooted(p, a, b, n, m, k);
    while parent[k] >= 0
      invariant 1 <= k <= m && j + Depth(p, a, b, n, m, k) == Depth(p, a, b, n, m, i)
      decreases m - k
    {
      assert Rooted(p, a, b, n, m, k);
      k := parent[k];
      j := j + 1;
    }
  }

  method ReadLengths(len: array<int>, parent: array<int>, alphaSize: nat, maxLen: int,
                     ghost a: seq<int>, ghost b: seq<int>, ghost m: int) returns (tooLong: bool)
    requires len != parent && alphaSize <= len.Length && Forest(parent[..], a, b, alphaSize, m)
    modifies len
    ensures LeafDepths(len[..alphaSize], parent[..], a, b, alphaSize, m)
    ensures tooLong <==> exists i :: 0 <= i < alphaSize && len[i] > maxLen
    ensures len[alphaSize..] == old(len[alphaSize..])
  {
    tooLong := false;
    for i := 1 to alphaSize + 1
      invariant forall k :: 0 <= k < i - 1 ==> len[k] == Depth(parent[..], a, b, alphaSize, m, k + 1)
      invariant tooLong <==> exists k :: 0 <= k < i - 1 && len[k] > maxLen
      invariant len[alphaSize..] == old(len[alphaSize..])
    {
      var j := Climb(parent, i, a, b, alphaSize, m);
      ghost var was := len[..];
      len[i - 1] := j;
      assert forall k :: 0 <= k < i - 1 ==> len[k] == was[k];
      if j > maxLen {
        tooLong := true;
        assert len[i - 1] > maxLen;
      }
    }
  }

  /** A leaf deeper than 17 needs a total weight that weights of at most 2 cannot supply. */
  lemma TooLongIsHeavy(len: seq<int>, w: seq<int>, p: seq<int>, a: seq<int>, b: seq<int>, n: int, m: int, i: int)
    requires Complete(w, p, a, b, n, m) && LeafDepths(len, p, a, b, n, m) && n <= 258
    requires 0 <= i < n && len[i] > 17
    ensures Total(w, n) > 2 * n
  {
    var d := seq(m + 1, v requires 0 <= v <= m => Height(w[v]));
    forall v | 1 <= v <= m && 0 <= p[v] <= m ensures d[v] < d[p[v]] {
      assert Rooted(p, a, b, n, m, v) && Added(w, a, b, p[v]);
    }
    DepthAtMostHeight(p, a, b, n, m, d, i + 1);
    var h := Height(w[m]);
    LeastDoubles(h);
    Pow2Monotone(9, h / 2);
  }

  /** Every leaf of one tree with two or more leaves is at least one deep. */
  lemma LengthsPositive(len: seq<int>, w: seq<int>, p: seq<int>, a: seq<int>, b: seq<int>, n: int, m: int)
    requires Complete(w, p, a, b, n, m) && LeafDepths(len, p, a, b, n, m) && n < m
    ensures forall i :: 0 <= i < n ==> len[i] >= 1
  {
    forall i | 0 <= i < n ensures len[i] >= 1 {
      assert p[i + 1] >= 0;
      assert Depth(p, a, b, n, m, i + 1) == len[i];
    }
  }

  // ---- Rescaling ----

  ghost predicate Halved(w: seq<int>, w': seq<int>, n: nat) {
    n < |w| && n < |w'| && forall v :: 1 <= v <= n ==> w'[v] == (1 + Mass(w[v]) / 2) * 256
  }

  /** Rescaling lowers the total unless every weight is at most 2. */
  lemma {:induction false} HalvedTotal(w: seq<int>, w': seq<int>, n: nat)
    requires Halved(w, w', n) && Leaves(w, n)
    ensures Leaves(w', n) && Total(w', n) <= Total(w, n)
    ensures Total(w, n) > 2 * n ==> Total(w', n) < Total(w, n)
  {
    if n > 0 { HalvedTotal(w, w', n - 1); }
  }

  method Rescale(weight: array<int>, alphaSize: nat)
    requires Leaves(weight[..], alphaSize)
    modifies weight
    ensures Halved(old(weight[..]), weight[..], alphaSize)
  {
    for i := 1 to alphaSize + 1
      invariant forall v :: 1 <= v < i ==> weight[v] == (1 + Mass(old(weight[v])) / 2) * 256
      invariant forall v :: i <= v <= alphaSize ==> weight[v] == old(weight[v])
    {
      var j := weight[i] / 256;
      j := 1 + j / 2;
      weight[i] := j * 256;
    }
  }

  // ---- The whole operation ----

  /** The weights given to the symbols: frequencies with 0 counted as 1, rescaled k times. */
  ghost function Scaled(freq: seq<int>, k: nat): (w: seq<int>)
    ensures |w| == |freq|
  {
    if k == 0 then seq(|freq|, i requires 0 <= i < |freq| => if freq[i] == 0 then 1 else freq[i])
    else seq(|freq|, i requires 0 <= i < |freq| => 1 + Scaled(freq, k - 1)[i] / 2)
  }

  /** The leaves weigh what the symbols do. */
  ghost predicate Carries(w: seq<int>, freq: seq<int>, k: nat) {
    |freq| < |w| && forall v :: 1 <= v <= |freq| ==> w[v] == Scaled(freq, k)[v - 1] * 256
  }

  lemma RescaledCarries(w: seq<int>, w': seq<int>, freq: seq<int>, k: nat)
    requires Carries(w, freq, k) && Halved(w, w', |freq|)
    ensures Carries(w', freq, k + 1)
  {
    forall v | 1 <= v <= |freq| ensures w'[v] == Scaled(freq, k + 1)[v - 1] * 256 {
      assert Mass(w[v]) == Scaled(freq, k)[v - 1];
    }
  }

  /** Some shortest code for the weights w has a length above the limit. */
  ghost predicate TooDeep(w: seq<int>, maxLen: nat) {
    exists len :: Optimal(w, len) && exists i :: 0 <= i < |len| && len[i] > maxLen
  }

  /** Each of the first k scalings was given up for a tree that was too deep. */
  ghost predicate GivenUp(freq: seq<int>, k: nat, maxLen: nat) {
    k > 0 ==> GivenUp(freq, k - 1, maxLen) && TooDeep(Scaled(freq, k - 1), maxLen)
  }

  /** The lengths read off the tree are those of a shortest code. */
  lemma DepthsOptimal(len: seq<int>, w: seq<int>, p: seq<int>, a: seq<int>, b: seq<int>, n: int, m: int, freq: seq<int>, k: nat)
    requires Complete(w, p, a, b, n, m) && LeafDepths(len, p, a, b, n, m) && |freq| == n && Carries(w, freq, k)
    ensures Optimal(Scaled(freq, k), len)
  {
    var s, f := Scaled(freq, k), Masses(w, m);
    PicksAreGreedy(w, p, a, b, n, m);
    forall i | 0 <= i < n ensures f[i + 1] == s[i] {
      assert w[i + 1] == s[i + 1 - 1] * 256;
    }
    TreeOptimal(s, len, f, p, a, b, n, m);
  }

  /** Frequencies with 0 counted as 1. */
  function FreqTotal(freq: seq<int>): int {
    if |freq| == 0 then 0
    else FreqTotal(freq[..|freq| - 1]) + (if freq[|freq| - 1] == 0 then 1 else freq[|freq| - 1])
  }

  method LoadWeights(weight: array<int>, freq: seq<int>)
    requires |freq| < weight.Length && forall i :: 0 <= i < |freq| ==> freq[i] >= 0
    modifies weight
    ensures Leaves(weight[..], |freq|) && Total(weight[..], |freq|) == FreqTotal(freq) && Carries(weight[..], freq, 0)
  {
    for i := 0 to |freq|
      invariant forall v :: 1 <= v <= i ==> weight[v] == (if freq[v - 1] == 0 then 1 else freq[v - 1]) * 256
    {
      weight[i + 1] := (if freq[i] == 0 then 1 else freq[i]) * 256;
    }
    LoadedTotal(weight[..], freq, |freq|);
    assert freq[..|freq|] == freq;
  }

  lemma {:induction false} LoadedTotal(w: seq<int>, freq: seq<int>, k: nat)
    requires k <= |freq| < |w|
    requires forall v :: 1 <= v <= k ==> w[v] == (if freq[v - 1] == 0 then 1 else freq[v - 1]) * 256
    ensures Total(w, k) == FreqTotal(freq[..k])
  {
    if k > 0 {
      LoadedTotal(w, freq, k - 1);
      assert freq[..k][..k - 1] == freq[..k - 1];
    }
  }

  /** Lengths of a complete prefix code. */
  ghost predicate CompleteCode(len: seq<int>, maxLen: nat) {
    Between(len, 1, maxLen) && KraftSum(len, maxLen) == Pow2(maxLen)
  }

  lemma LengthsComplete(len: seq<int>, w: seq<int>, p: seq<int>, a: seq<int>, b: seq<int>, n: int, m: int, maxLen: nat)
    requires Complete(w, p, a, b, n, m) && LeafDepths(len, p, a, b, n, m) && n < m
    requires forall i :: 0 <= i < n ==> len[i] <= maxLen
    ensures CompleteCode(len, maxLen)
  {
    LengthsPositive(len, w, p, a, b, n, m);
    var top := m + maxLen;
    TreeKraft(len, p, a, b, n, m, top);
    KraftExact(len, maxLen, top);
  }

  /** A code for the frequencies rescaled k times: complete, no prefix code shorter, and of two
      symbols the more frequent one no longer. */
  ghost predicate BestCode(len: seq<int>, freq: seq<int>, k: nat, maxLen: nat) {
    && CompleteCode(len, maxLen) && Optimal(Scaled(freq, k), len)
    && forall i, j :: 0 <= i < |freq| && 0 <= j < |freq| && Scaled(freq, k)[i] > Scaled(freq, k)[j] ==> len[i] <= len[j]
  }

  lemma BestFrom(len: seq<int>, freq: seq<int>, k: nat, maxLen: nat)
    requires CompleteCode(len, maxLen) && Optimal(Scaled(freq, k), len)
    ensures BestCode(len, freq, k, maxLen)
  {
    var w := Scaled(freq, k);
    forall i, j | 0 <= i < |freq| && 0 <= j < |freq| && w[i] > w[j] ensures len[i] <= len[j] {
      FrequentIsShort(w, len, maxLen, i, j);
    }
  }

  /** One tree for the weights as they stand, and its lengths. */
  method TryTree(len: array<int>, heap: array<int>, weight: array<int>, parent: array<int>, alphaSize: nat, maxLen: nat,
                 ghost freq: seq<int>, ghost k: nat) returns (tooLong: bool)
    requires heap != weight && heap != parent && weight != parent && len != heap && len != weight && len != parent
    requires 2 <= alphaSize <= 258 && alphaSize <= len.Length && maxLen >= 17
    requires heap.Length == 260 && weight.Length == parent.Length == 516
    requires Leaves(weight[..], alphaSize) && Total(weight[..], alphaSize) < 0x800000
    requires |freq| == alphaSize && Carries(weight[..], freq, k) && GivenUp(freq, k, maxLen)
    modifies len, heap, weight, parent
    ensures Leaves(weight[..], alphaSize) && Total(weight[..], alphaSize) == old(Total(weight[..], alphaSize))
    ensures Carries(weight[..], freq, k)
    ensures if tooLong then Total(weight[..], alphaSize) > 2 * alphaSize && GivenUp(freq, k + 1, maxLen)
            else BestCode(len[..alphaSize], freq, k, maxLen)
    ensures len[alphaSize..] == old(len[alphaSize..])
  {
    ghost var w0 := weight[..];
    var nNodes, a, b := BuildTree(heap, weight, parent, alphaSize);
    ghost var w, p := weight[..], parent[..];
    LeafTotals(w0, w, alphaSize);
    tooLong := ReadLengths(len, parent, alphaSize, maxLen, a, b, nNodes);
    ghost var l := len[..alphaSize];
    DepthsOptimal(l, w, p, a, b, alphaSize, nNodes, freq, k);
    if tooLong {
      ghost var i :| 0 <= i < alphaSize && len[i] > maxLen;
      assert TooDeep(Scaled(freq, k), maxLen) by { assert l[i] > maxLen; }
      TooLongIsHeavy(l, w, p, a, b, alphaSize, nNodes, i);
    } else {
      LengthsComplete(l, w, p, a, b, alphaSize, nNodes, maxLen);
      BestFrom(l, freq, k, maxLen);
    }
  }

  /** Rescaling what the symbols weigh lowers a total that made a tree too deep. */
  method RescaleCarried(weight: array<int>, alphaSize: nat, ghost freq: seq<int>, ghost k: nat)
    requires Leaves(weight[..], alphaSize) && Total(weight[..], alphaSize) > 2 * alphaSize
    requires |freq| == alphaSize && Carries(weight[..], freq, k)
    modifies weight
    ensures Leaves(weight[..], alphaSize) && Total(weight[..], alphaSize) < old(Total(weight[..], alphaSize))
    ensures Carries(weight[..], freq, k + 1)
  {
    ghost var w := weight[..];
    Rescale(weight, alphaSize);
    HalvedTotal(w, weight[..], alphaSize);
    RescaledCarries(w, weight[..], freq, k);
  }

  /** BZ2_hbMakeCodeLengths with a limit of at least 17: it comes to an end, and the lengths are
      those of a shortest prefix code for the frequencies, rescaled as often as a tree was too
      deep. The total of the frequencies is bounded so that a 32-bit key does not overflow. */
  method MakeCodeLengths(len: array<int>, freq: seq<int>, maxLen: nat) returns (ghost k: nat)
    requires 2 <= |freq| <= 258 && |freq| <= len.Length && maxLen >= 17
    requires (forall i :: 0 <= i < |freq| ==> freq[i] >= 0) && FreqTotal(freq) < 0x800000
    modifies len
    ensures BestCode(len[..|freq|], freq, k, maxLen)
    ensures GivenUp(freq, k, maxLen)
    ensures len[|freq|..] == old(len[|freq|..])
  {
    var alphaSize := |freq|;
    var heap, weight, parent := new int[260], new int[516], new int[516];
    LoadWeights(weight, freq);
    k := 0;
    while true
      invariant Leaves(weight[..], alphaSize) && Total(weight[..], alphaSize) < 0x800000
      invariant Carries(weight[..], freq, k) && GivenUp(freq, k, maxLen)
      invariant len[alphaSize..] == old(len[alphaSize..])
      decreases Total(weight[..], alphaSize)
    {
      var tooLong := TryTree(len, heap, weight, parent, alphaSize, maxLen, freq, k);
      if !tooLong { return; }
      RescaleCarried(weight, alphaSize, freq, k);
      k := k + 1;
    }
  }

  lemma LeafTotals(w: seq<int>, w': seq<int>, n: nat)
    requires n < |w| && n < |w'| && w[1..n + 1] == w'[1..n + 1]
    ensures Total(w, n) == Total(w', n) && forall v :: 1 <= v <= n ==> w[v] == w'[v]
  {
    forall v | 1 <= v <= n ensures w[v] == w'[v] {
      assert w[v] == w[1..n + 1][v - 1] == w'[1..n + 1][v - 1];
    }
    TotalFrame(w, w', n);
  }
}
