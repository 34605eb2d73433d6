/** The dictionary of deflate (deflate.c): the rolling hash, and hash chains threaded through a
    table of positions modulo the window size, under insertion and under sliding. */
module DeflateHash {
  import opened Sequences
  import opened Bits

  // ---- The hash of three bytes ----

  /** A hash of |h| bits shifted by s, exclusive-or the bits of a byte. */
  function Mixed(h: seq<bool>, s: nat, b: seq<bool>): (r: seq<bool>)
    requires |b| == 8
    ensures |r| == |h|
    ensures forall i :: 0 <= i < |h| ==> r[i] == ((i >= s && h[i - s]) != (i < 8 && b[i]))
  {
    seq(|h|, i requires 0 <= i < |h| => (i >= s && h[i - s]) != (i < 8 && b[i]))
  }

  /** UPDATE_HASH. */
  function Updated(h: seq<bool>, s: nat, c: Byte): (r: seq<bool>)
    ensures |r| == |h|
  {
    Mixed(h, s, ByteLow(9, c))
  }

  /** The hash of three bytes, of b bits. */
  function Hash3(b: nat, s: nat, x: Byte, y: Byte, z: Byte): (h: seq<bool>)
    ensures |h| == b
  {
    Updated(Updated(Updated(Falses(b), s, x), s, y), s, z)
  }

  /** After three steps the oldest byte takes no more part. */
  lemma HashForgets(h: seq<bool>, s: nat, x: Byte, y: Byte, z: Byte)
    requires 3 * s >= |h|
    ensures Updated(Updated(Updated(h, s, x), s, y), s, z) == Hash3(|h|, s, x, y, z)
  {
    var a, b := Updated(h, s, x), Updated(Falses(|h|), s, x);
    var c, d := Updated(a, s, y), Updated(b, s, y);
    forall i | 0 <= i < |h| && i < s ensures a[i] == b[i] {
    }
    forall i | 0 <= i < |h| && i < 2 * s ensures c[i] == d[i] {
    }
  }

  /** Strings with one hash and the same first two bytes have the same third. */
  lemma HashFixesThird(b: nat, s: nat, x: Byte, y: Byte, z: Byte, z': Byte)
    requires b >= 8 && Hash3(b, s, x, y, z) == Hash3(b, s, x, y, z')
    ensures z == z'
  {
    var h := Updated(Updated(Falses(b), s, x), s, y);
    var p, q := Updated(h, s, z), Updated(h, s, z');
    var u, v := ByteLow(9, z), ByteLow(9, z');
    forall i | 0 <= i < 8 ensures u[i] == v[i] {
      assert p[i] == q[i];
    }
    assert u == v;
    ByteLowNumber(z);
    ByteLowNumber(z');
  }

  /** The running hash has taken in x and y last: any next byte completes their hash. */
  ghost predicate Rolls(h: seq<bool>, s: nat, x: Byte, y: Byte) {
    forall z: Byte :: Completes(9, h, s, x, y, z)
  }

  /** The count k only keeps the verifier from looking inside. */
  ghost predicate Completes(k: nat, h: seq<bool>, s: nat, x: Byte, y: Byte, z: Byte)
    decreases k, |h|
  {
    if k == 0 then Updated(h, s, z) == Hash3(|h|, s, x, y, z) else Completes(k - 1, h, s, x, y, z)
  }

  lemma {:induction false} CompletesSeal(k: nat, h: seq<bool>, s: nat, x: Byte, y: Byte, z: Byte)
    ensures Completes(k, h, s, x, y, z) == (Updated(h, s, z) == Hash3(|h|, s, x, y, z))
  {
    if k > 0 { CompletesSeal(k - 1, h, s, x, y, z); }
  }

  lemma RollStart(h: seq<bool>, s: nat, x: Byte, y: Byte)
    requires 3 * s >= |h|
    ensures Rolls(Updated(Updated(h, s, x), s, y), s, x, y)
  {
    var r := Updated(Updated(h, s, x), s, y);
    forall z: Byte ensures Completes(9, r, s, x, y, z) {
      HashForgets(h, s, x, y, z);
      CompletesSeal(9, r, s, x, y, z);
    }
  }

  lemma RollOn(h: seq<bool>, s: nat, x: Byte, y: Byte, z: Byte)
    requires Rolls(h, s, x, y) && 3 * s >= |h|
    ensures Updated(h, s, z) == Hash3(|h|, s, x, y, z) && Rolls(Updated(h, s, z), s, y, z)
  {
    assert Completes(9, h, s, x, y, z);
    CompletesSeal(9, h, s, x, y, z);
    RollStart(Updated(Falses(|h|), s, x), s, y, z);
  }

  // ---- Slots ----

  /** Where a position stands in prev: its low bits. */
  function SlotOf(p: int, wsize: nat): (i: nat)
    requires wsize > 0
    ensures i < wsize
  {
    p % wsize
  }

  lemma SlotSlides(p: int, wsize: nat)
    requires wsize > 0
    ensures SlotOf(p - wsize, wsize) == SlotOf(p, wsize)
  {
    var q := p / wsize;
    assert p == q * wsize + p % wsize;
    assert p - wsize == (q - 1) * wsize + p % wsize;
    Quotient(p - wsize, wsize, q - 1, p % wsize);
  }

  lemma Quotient(x: int, n: int, q: int, r: int)
    requires n > 0 && x == q * n + r && 0 <= r < n
    ensures x % n == r
  {
    var d := x / n - q;
    assert d * n == r - x % n;
    MultipleAtLeast(d, n);
  }

  lemma SlotsApart(a: int, b: int, wsize: nat)
    requires wsize > 0 && a <= b < a + wsize && SlotOf(a, wsize) == SlotOf(b, wsize)
    ensures a == b
  {
    var d := b / wsize - a / wsize;
    assert b - a == d * wsize;
    MultipleAtLeast(d, wsize);
  }

  // ---- Chains ----

  /** The chains: head by key, prev by slot, and for each slot the position that last took it
      (0 for none). */
  datatype Chains = Chains(head: seq<int>, prev: seq<int>, owner: seq<int>)

  /** A position a chain may name: it has a key, and its slot was not taken by an older one. */
  ghost predicate Named(n: nat, key: seq<int>, c: Chains, top: int, v: int)
    requires n > 0 && |c.owner| == n
  {
    0 < v <= top && v < |key| && v <= c.owner[SlotOf(v, n)]
  }

  ghost predicate HeadOk(n: nat, key: seq<int>, c: Chains, top: int, i: int)
    requires n > 0 && |c.owner| == n && 0 <= i < |c.head|
  {
    c.head[i] == 0 || (Named(n, key, c, top, c.head[i]) && key[c.head[i]] == i)
  }

  ghost predicate SlotOk(n: nat, key: seq<int>, c: Chains, top: int, j: int)
    requires n > 0 && |c.owner| == |c.prev| == n && 0 <= j < n
  {
    c.owner[j] == 0 ||
    (&& Named(n, key, c, top, c.owner[j]) && SlotOf(c.owner[j], n) == j
     && (c.prev[j] == 0 || (Named(n, key, c, top, c.prev[j]) && c.prev[j] < c.owner[j] && key[c.prev[j]] == key[c.owner[j]])))
  }

  /** The chains link positions of one key each, newest first; all are at most top. key gives the
      key of every position that has one. */
  ghost predicate Linked(n: nat, key: seq<int>, c: Chains, top: int) {
    && n > 0 && |c.owner| == |c.prev| == n && InRange(key, |c.head|)
    && (forall i :: 0 <= i < |c.head| ==> HeadOk(n, key, c, top, i))
    && (forall j :: 0 <= j < n ==> SlotOk(n, key, c, top, j))
  }

  lemma EmptyLinked(n: nat, c: Chains)
    requires n > 0 && |c.owner| == |c.prev| == n
    requires (forall i :: 0 <= i < |c.head| ==> c.head[i] == 0) && (forall j :: 0 <= j < n ==> c.owner[j] == 0)
    ensures Linked(n, [], c, -1)
  {
  }

  /** More keys, or a later top, change nothing. */
  lemma MoreLinked(n: nat, key: seq<int>, key': seq<int>, c: Chains, top: int, top': int)
    requires Linked(n, key, c, top) && key <= key' && InRange(key', |c.head|) && top <= top'
    ensures Linked(n, key', c, top')
  {
    forall i | 0 <= i < |c.head| ensures HeadOk(n, key', c, top', i) {
      assert HeadOk(n, key, c, top, i);
    }
    forall j | 0 <= j < n ensures SlotOk(n, key', c, top', j) {
      assert SlotOk(n, key, c, top, j);
    }
  }

  ghost function Inserted(n: nat, c: Chains, i: int, p: int): Chains
    requires n > 0 && |c.owner| == |c.prev| == n && 0 <= i < |c.head|
  {
    var j := SlotOf(p, n);
    Chains(c.head[i := p], c.prev[j := c.head[i]], c.owner[j := p])
  }

  /** INSERT_STRING of a position newer than all others. */
  lemma InsertLinked(n: nat, key: seq<int>, c: Chains, top: int, p: int)
    requires Linked(n, key, c, top) && top < p && 0 <= p < |key|
    ensures Linked(n, key, Inserted(n, c, key[p], p), p)
  {
    var i := key[p];
    var c', j := Inserted(n, c, i, p), SlotOf(p, n);
    forall k | 0 <= k < |c'.head| ensures HeadOk(n, key, c', p, k) {
      assert HeadOk(n, key, c, top, k);
    }
    forall k | 0 <= k < n ensures SlotOk(n, key, c', p, k) {
      assert SlotOk(n, key, c, top, k);
      assert HeadOk(n, key, c, top, i);
    }
  }

  function Slid(m: int, n: nat): int { if m >= n then m - n else 0 }

  function SlidAll(s: seq<int>, n: nat): (r: seq<int>)
    ensures |r| == |s| && forall i :: 0 <= i < |s| ==> r[i] == Slid(s[i], n)
  {
    seq(|s|, i requires 0 <= i < |s| => Slid(s[i], n))
  }

  ghost function SlidChains(c: Chains, n: nat): Chains {
    Chains(SlidAll(c.head, n), SlidAll(c.prev, n), SlidAll(c.owner, n))
  }

  lemma SlideNamed(n: nat, key: seq<int>, c: Chains, top: int, v: int)
    requires n > 0 && |c.owner| == n && Named(n, key, c, top, v) && v > n
    ensures Named(n, key[n..], SlidChains(c, n), top - n, v - n) && key[n..][v - n] == key[v]
  {
    SlotSlides(v, n);
  }

  lemma SlideHead(n: nat, key: seq<int>, c: Chains, top: int, i: int)
    requires n > 0 && |c.owner| == n <= |key| && 0 <= i < |c.head| && HeadOk(n, key, c, top, i)
    ensures HeadOk(n, key[n..], SlidChains(c, n), top - n, i)
  {
    if c.head[i] > n { SlideNamed(n, key, c, top, c.head[i]); }
  }

  lemma SlideSlot(n: nat, key: seq<int>, c: Chains, top: int, j: int)
    requires n > 0 && |c.owner| == |c.prev| == n <= |key| && 0 <= j < n && SlotOk(n, key, c, top, j)
    ensures SlotOk(n, key[n..], SlidChains(c, n), top - n, j)
  {
    var o, q := c.owner[j], c.prev[j];
    if o > n {
      SlideNamed(n, key, c, top, o);
      SlotSlides(o, n);
      if q > n { SlideNamed(n, key, c, top, q); }
    }
  }

  /** Sliding by the window size keeps the chains, less what falls out. */
  lemma SlideLinked(n: nat, key: seq<int>, c: Chains, top: int, key': seq<int>, c': Chains, top': int)
    requires Linked(n, key, c, top) && n <= |key| && key' == key[n..] && c' == SlidChains(c, n) && top' == top - n
    ensures Linked(n, key', c', top')
  {
    forall i | 0 <= i < |c'.head| ensures HeadOk(n, key', c', top', i) {
      assert HeadOk(n, key, c, top, i);
      SlideHead(n, key, c, top, i);
    }
    forall j | 0 <= j < n ensures SlotOk(n, key', c', top', j) {
      assert SlotOk(n, key, c, top, j);
      SlideSlot(n, key, c, top, j);
    }
  }

  /** From a position near the top, its slot leads to an older position of the same key, or ends. */
  lemma FollowChain(n: nat, key: seq<int>, c: Chains, top: int, v: int)
    requires Linked(n, key, c, top) && Named(n, key, c, top, v) && top < v + n
    ensures var q := c.prev[SlotOf(v, n)]; q == 0 || (Named(n, key, c, top, q) && q < v && key[q] == key[v])
  {
    var j := SlotOf(v, n);
    assert SlotOk(n, key, c, top, j);
    SlotsApart(v, c.owner[j], n);
  }

  // ---- Keys ----

  /** Bits and shift of the hash. */
  datatype Shape = Shape(bits: nat, shift: nat)

  ghost predicate GoodShape(g: Shape) { g.bits >= 8 && 3 * g.shift >= g.bits }

  function KeyOf(g: Shape, x: Byte, y: Byte, z: Byte): (k: nat)
    ensures k < Pow2(g.bits)
  {
    BitsOfNumber(Hash3(g.bits, g.shift, x, y, z));
    Number(Hash3(g.bits, g.shift, x, y, z))
  }

  lemma KeyFixesThird(g: Shape, x: Byte, y: Byte, z: Byte, z': Byte)
    requires GoodShape(g) && KeyOf(g, x, y, z) == KeyOf(g, x, y, z')
    ensures z == z'
  {
    BitsOfNumber(Hash3(g.bits, g.shift, x, y, z));
    BitsOfNumber(Hash3(g.bits, g.shift, x, y, z'));
    HashFixesThird(g.bits, g.shift, x, y, z, z');
  }

  /** The keys of all strings of three bytes in the data. */
  ghost function Keys(g: Shape, d: seq<Byte>): (key: seq<int>)
    ensures |key| == if |d| < 2 then 0 else |d| - 2
    ensures forall p :: 0 <= p < |key| ==> key[p] == KeyOf(g, d[p], d[p + 1], d[p + 2])
  {
    seq(if |d| < 2 then 0 else |d| - 2, p requires 0 <= p < |d| - 2 => KeyOf(g, d[p], d[p + 1], d[p + 2]))
  }

  lemma KeysInRange(g: Shape, d: seq<Byte>)
    ensures InRange(Keys(g, d), Pow2(g.bits))
  {
  }

  lemma KeysPrefix(g: Shape, d: seq<Byte>, e: seq<Byte>)
    requires d <= e
    ensures Keys(g, d) <= Keys(g, e)
  {
  }

  lemma KeysSuffix(g: Shape, d: seq<Byte>, n: nat)
    requires n + 2 <= |d|
    ensures Keys(g, d[n..]) == Keys(g, d)[n..]
  {
  }
}
