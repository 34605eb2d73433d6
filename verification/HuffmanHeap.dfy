/** The heap of BZ2_hbMakeCodeLengths in huffman.c: entries 1..n hold node numbers, entry 0 is a
    sentinel of weight 0, and a node's weight is its key. */
module HuffmanHeap {
  import opened Sequences

  ghost predicate Entries(h: seq<int>, w: seq<int>, n: int) {
    && 0 <= n < |h| && 0 < |w| && h[0] == 0 && w[0] == 0
    && forall k :: 1 <= k <= n ==> 0 <= h[k] < |w| && w[h[k]] > 0
  }

  /** The keys, position by position. */
  ghost function Keys(h: seq<int>, w: seq<int>, n: int): (q: seq<int>)
    requires Entries(h, w, n)
    ensures |q| == n + 1 && forall k :: 0 <= k <= n ==> 0 <= h[k] < |w| && q[k] == w[h[k]]
  {
    seq(n + 1, k requires 0 <= k <= n => w[h[k]])
  }

  ghost predicate Ordered(q: seq<int>, k: int)
    requires 2 <= k < |q|
  {
    q[k / 2] <= q[k]
  }

  /** Every entry is at least its parent. */
  ghost predicate HeapOrder(q: seq<int>) {
    forall k :: 2 <= k < |q| ==> Ordered(q, k)
  }

  /** A definition guarded by "for every u with UnfoldHeap(u)" stays folded for the verifier until
      UnfoldHeap is mentioned. */
  ghost predicate UnfoldHeap(u: int) { true }

  /** A heap of n nodes; kept folded until unfolded. */
  ghost predicate IsHeap(h: seq<int>, w: seq<int>, n: int) {
    0 <= n < |h| && forall u {:trigger UnfoldHeap(u)} :: UnfoldHeap(u) ==> Entries(h, w, n) && HeapOrder(Keys(h, w, n))
  }

  lemma {:induction false} TopIsLeast(q: seq<int>, k: int)
    requires HeapOrder(q) && 1 <= k < |q|
    ensures q[1] <= q[k]
  {
    if k > 1 {
      assert Ordered(q, k);
      TopIsLeast(q, k / 2);
    }
  }

  /** Heap order except that entry z may be smaller than its parent. */
  ghost predicate Rising(q: seq<int>, z: int) {
    && 1 <= z < |q|
    && (forall k :: 2 <= k < |q| && k != z ==> Ordered(q, k))
    && (z >= 2 ==> forall k :: 2 <= k < |q| && k / 2 == z ==> q[z / 2] <= q[k])
  }

  /** Heap order except that entry z may be larger than its children. */
  ghost predicate Sinking(q: seq<int>, z: int) {
    && 1 <= z
    && (forall k :: 2 <= k < |q| && k / 2 != z ==> Ordered(q, k))
    && (z >= 2 ==> forall k :: 2 <= k < |q| && k / 2 == z ==> q[z / 2] <= q[k])
  }

  function Swap<T>(s: seq<T>, i: int, j: int): (r: seq<T>)
    requires 0 <= i < |s| && 0 <= j < |s|
    ensures |r| == |s| && r[i] == s[j] && r[j] == s[i]
    ensures forall k :: 0 <= k < |s| && k != i && k != j ==> r[k] == s[k]
  {
    s[i := s[j]][j := s[i]]
  }

  lemma RisingStep(q: seq<int>, z: int)
    requires Rising(q, z) && z >= 2 && q[z] < q[z / 2]
    ensures Rising(Swap(q, z, z / 2), z / 2)
  {
    var y, r := z / 2, Swap(q, z, z / 2);
    forall k | 2 <= k < |r| && k != y ensures Ordered(r, k) {
      if k != z { assert Ordered(q, k); }
    }
    if y >= 2 {
      assert Ordered(q, y);
      forall k | 2 <= k < |r| && k / 2 == y ensures r[y / 2] <= r[k] {
        if k != z { assert Ordered(q, k); }
      }
    }
  }

  lemma SinkingStep(q: seq<int>, z: int, y: int)
    requires Sinking(q, z) && y / 2 == z && 2 <= y < |q| && q[y] <= q[z]
    requires forall k :: 2 <= k < |q| && k / 2 == z ==> q[y] <= q[k]
    ensures Sinking(Swap(q, z, y), y)
  {
    var r := Swap(q, z, y);
    forall k | 2 <= k < |r| && k / 2 != y ensures Ordered(r, k) {
      if k / 2 != z { assert Ordered(q, k); }
    }
    forall k | 2 <= k < |r| && k / 2 == y ensures r[y / 2] <= r[k] {
      assert Ordered(q, k);
    }
  }

  /** h and g hold the same nodes. */
  ghost predicate SameNodes(h: seq<int>, g: seq<int>, n: int) {
    |h| == |g| && 0 <= n < |h| && forall x :: Count(Nodes(h, n), x) == Count(Nodes(g, n), x)
  }

  ghost function Nodes(h: seq<int>, n: int): seq<int>
    requires 0 <= n < |h|
  {
    h[1..n + 1]
  }

  lemma SwapNodes(h: seq<int>, i: int, j: int, n: int)
    requires 1 <= i <= n && 1 <= j <= n < |h|
    ensures SameNodes(h, Swap(h, i, j), n)
  {
    var s := h[1..n + 1];
    var t := s[i - 1 := s[j - 1]];
    assert Swap(h, i, j)[1..n + 1] == t[j - 1 := s[i - 1]];
    forall x ensures Count(s, x) == Count(t[j - 1 := s[i - 1]], x) {
      CountUpdate(s, i - 1, s[j - 1], x);
      CountUpdate(t, j - 1, s[i - 1], x);
    }
  }

  lemma SwapEntries(h: seq<int>, w: seq<int>, n: int, i: int, j: int)
    requires Entries(h, w, n) && 1 <= i <= n && 1 <= j <= n
    ensures Entries(Swap(h, i, j), w, n) && Keys(Swap(h, i, j), w, n) == Swap(Keys(h, w, n), i, j)
  {
  }

  /** UPHEAP: lets entry z rise to its place. */
  method UpHeap(heap: array<int>, weight: array<int>, z: int)
    requires heap != weight && z >= 1 && Entries(heap[..], weight[..], z)
    requires Rising(Keys(heap[..], weight[..], z), z)
    modifies heap
    ensures Entries(heap[..], weight[..], z) && HeapOrder(Keys(heap[..], weight[..], z))
    ensures SameNodes(old(heap[..]), heap[..], z)
  {
    var zz := z;
    var tmp := heap[zz];
    ghost var w, h0 := weight[..], heap[..];
    ghost var h := h0;
    assert heap[..][zz := tmp] == h;
    while weight[tmp] < weight[heap[zz / 2]]
      invariant 1 <= zz <= z && Entries(h, w, z) && weight[..] == w
      invariant h == heap[..][zz := tmp] && h[zz] == tmp && h[zz / 2] == heap[zz / 2]
      invariant Rising(Keys(h, w, z), zz) && SameNodes(h0, h, z)
      decreases zz
    {
      RisingStep(Keys(h, w, z), zz);
      SwapEntries(h, w, z, zz, zz / 2);
      SwapNodes(h, zz, zz / 2, z);
      h := Swap(h, zz, zz / 2);
      heap[zz] := heap[zz / 2];
      zz := zz / 2;
    }
    heap[zz] := tmp;
    assert heap[..] == h;
    ghost var q := Keys(h, w, z);
    assert zz >= 2 ==> Ordered(q, zz);
  }

  /** Where a sinking entry goes next: the smaller child, or nowhere. */
  method Child(heap: array<int>, weight: array<int>, nHeap: int, zz: int, tmp: int) returns (yy: int)
    requires heap != weight && 1 <= zz && 0 <= nHeap < heap.Length
    requires zz <= nHeap ==> Entries(heap[..][zz := tmp], weight[..], nHeap)
    ensures yy == 0 || (yy / 2 == zz && 2 <= yy <= nHeap)
    ensures zz <= nHeap ==> var q := Keys(heap[..][zz := tmp], weight[..], nHeap);
      if yy == 0 then forall k :: 2 <= k <= nHeap && k / 2 == zz ==> q[zz] <= q[k]
      else q[yy] <= q[zz] && forall k :: 2 <= k <= nHeap && k / 2 == zz ==> q[yy] <= q[k]
  {
    yy := 2 * zz;
    if yy > nHeap {
      return 0;
    }
    ghost var h, w := heap[..][zz := tmp], weight[..];
    assert h[yy] == heap[yy] && h[zz] == tmp;
    if yy < nHeap {
      assert h[yy + 1] == heap[yy + 1];
      if weight[heap[yy + 1]] < weight[heap[yy]] {
        yy := yy + 1;
      }
    }
    if weight[tmp] < weight[heap[yy]] {
      yy := 0;
    }
  }

  /** DOWNHEAP(1): lets the top entry sink to its place. */
  method DownHeap(heap: array<int>, weight: array<int>, nHeap: int)
    requires heap != weight && heap.Length >= 2 && Entries(heap[..], weight[..], nHeap)
    requires Sinking(Keys(heap[..], weight[..], nHeap), 1)
    modifies heap
    ensures Entries(heap[..], weight[..], nHeap) && HeapOrder(Keys(heap[..], weight[..], nHeap))
    ensures SameNodes(old(heap[..]), heap[..], nHeap)
  {
    var zz := 1;
    var tmp := heap[zz];
    ghost var w, h0 := weight[..], heap[..];
    ghost var h := h0;
    assert heap[..][zz := tmp] == h;
    var yy := Child(heap, weight, nHeap, zz, tmp);
    while yy != 0
      invariant 1 <= zz < heap.Length && (zz <= nHeap || zz == 1) && Entries(h, w, nHeap) && weight[..] == w
      invariant h == heap[..][zz := tmp]
      invariant Sinking(Keys(h, w, nHeap), zz) && SameNodes(h0, h, nHeap)
      invariant yy == 0 || (yy / 2 == zz && 2 <= yy <= nHeap)
      invariant zz <= nHeap ==> var q := Keys(h, w, nHeap);
        if yy == 0 then forall k :: 2 <= k <= nHeap && k / 2 == zz ==> q[zz] <= q[k]
        else q[yy] <= q[zz] && forall k :: 2 <= k <= nHeap && k / 2 == zz ==> q[yy] <= q[k]
      decreases nHeap - zz, yy
    {
      SinkingStep(Keys(h, w, nHeap), zz, yy);
      SwapEntries(h, w, nHeap, zz, yy);
      SwapNodes(h, zz, yy, nHeap);
      assert h[yy] == heap[yy] && h[zz] == tmp;
      h := Swap(h, zz, yy);
      heap[zz] := heap[yy];
      zz := yy;
      assert heap[..][zz := tmp] == h;
      yy := Child(heap, weight, nHeap, zz, tmp);
    }
    heap[zz] := tmp;
    assert heap[..] == h;
    ghost var q := Keys(h, w, nHeap);
    forall k | 2 <= k < |q| ensures Ordered(q, k) {
    }
  }
}
