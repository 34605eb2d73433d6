/** fallbackSort and the sorted-rotations contract of BZ2_blockSort: bucket refinement by
    doubling the number of characters compared.

    A round is reasoned about through two tables of keys, one per position of the block: k for
    the first h characters, k2 for the first 2h. */
module FallbackSort {
  import opened Sequences
  import opened Rotations
  import opened FallbackQSort
  import opened FallbackBuckets

  /** The keys of all positions. */
  ghost function KeysOf(b: seq<Byte>, h: nat): (k: seq<int>)
    requires |b| > 0
    ensures |k| == |b| && forall i :: 0 <= i < |b| ==> k[i] == Key(b, i, h)
  {
    seq(|b|, i requires 0 <= i < |b| => Key(b, i, h))
  }

  /** The key changes at place i of f. */
  ghost predicate Boundary(k: seq<int>, f: seq<int>, i: int)
    requires InRange(f, |k|) && 0 <= i < |f|
  {
    i == 0 || k[f[i - 1]] != k[f[i]]
  }

  ghost predicate Ordered(k: seq<int>, f: seq<int>)
    requires InRange(f, |k|)
  {
    forall i, j :: 0 <= i < j < |f| ==> k[f[i]] <= k[f[j]]
  }

  /** The state between rounds: positions in key order, with a header bit exactly where the key
      changes. */
  ghost predicate Refined(k: seq<int>, f: seq<int>, bh: seq<bool>) {
    && 0 < |f| == |k| < |bh| && IsPermutation(f) && Ordered(k, f)
    && forall i :: 0 <= i < |f| ==> bh[i] == Boundary(k, f, i)
  }

  /** Header bits past the block: set, clear, set, clear, ... stop the bucket search. */
  ghost predicate Sentinels(bh: seq<bool>, n: int) {
    && n + 64 <= |bh| && 0 <= n
    && (forall i :: n <= i < n + 64 && (i - n) % 2 == 0 ==> bh[i])
    && (forall i :: n <= i < n + 64 && (i - n) % 2 == 1 ==> !bh[i])
  }

  /** The header of the bucket of place i. */
  ghost function Head(bh: seq<bool>, i: nat): (h: nat)
    requires i < |bh|
    ensures h <= i
  {
    if i == 0 || bh[i] then i else Head(bh, i - 1)
  }

  /** Headers number the buckets in key order. */
  lemma {:induction false} HeadOrder(k: seq<int>, f: seq<int>, bh: seq<bool>, i: nat, j: nat)
    requires Refined(k, f, bh) && i <= j < |f|
    ensures Head(bh, i) <= Head(bh, j)
    ensures Head(bh, i) == Head(bh, j) <==> k[f[i]] == k[f[j]]
    decreases j
  {
    if i < j {
      HeadOrder(k, f, bh, i, j - 1);
      assert k[f[i]] <= k[f[j - 1]] <= k[f[j]];
      assert bh[j] == Boundary(k, f, j);
    }
  }

  /** p moved h places back, cyclically. */
  function Back(p: int, h: int, n: int): int { if p - h < 0 then p - h + n else p - h }

  lemma BackIsInjective(p: int, q: int, h: int, n: int)
    requires 0 <= p < n && 0 <= q < n && 1 <= h <= n && p != q
    ensures 0 <= Back(p, h, n) < n && Back(p, h, n) != Back(q, h, n)
  {
  }

  /** e gives position x the bucket of position x + h, as far as the first m places of f go. */
  ghost predicate ClassedTo(f: seq<int>, bh: seq<bool>, e: seq<int>, h: nat, m: nat)
    requires m <= |f| <= |bh| && InRange(f, |f|) && 1 <= h <= |f|
  {
    |e| == |f| && forall i: nat :: i < m ==> e[Back(f[i], h, |f|)] == Head(bh, i)
  }

  lemma ClassStep(f: seq<int>, bh: seq<bool>, e: seq<int>, h: nat, i: nat)
    requires i < |f| <= |bh| && IsPermutation(f) && 1 <= h <= |f| && ClassedTo(f, bh, e, h, i)
    ensures ClassedTo(f, bh, e[Back(f[i], h, |f|) := Head(bh, i)], h, i + 1)
  {
    forall k: nat | k < i ensures Back(f[k], h, |f|) != Back(f[i], h, |f|) {
      BackIsInjective(f[k], f[i], h, |f|);
    }
  }

  /** Numbers the buckets, h places back. */
  method AssignClasses(fmap: array<int>, eclass: array<int>, bh: array<bool>, nblock: nat, h: nat)
    requires fmap != eclass && fmap.Length == eclass.Length == nblock <= bh.Length && 1 <= h <= nblock
    requires IsPermutation(fmap[..])
    modifies eclass
    ensures ClassedTo(fmap[..], bh[..], eclass[..], h, nblock)
  {
    var j := 0;
    ghost var f, hd := fmap[..], bh[..];
    for i := 0 to nblock
      invariant fmap[..] == f && bh[..] == hd && j == (if i > 0 then Head(hd, i - 1) else 0)
      invariant ClassedTo(f, hd, eclass[..], h, i)
    {
      if bh[i] { j := i; }
      assert j == Head(hd, i);
      var k := fmap[i] - h;
      if k < 0 { k := k + nblock; }
      ghost var e := eclass[..];
      ClassStep(f, hd, e, h, i);
      eclass[k] := j;
      assert eclass[..] == e[k := j];
    }
  }

  /** x + h, cyclically, is somewhere in f. */
  lemma ClassAt(f: seq<int>, bh: seq<bool>, e: seq<int>, h: nat, x: int) returns (i: nat)
    requires |f| <= |bh| && IsPermutation(f) && 1 <= h <= |f| && ClassedTo(f, bh, e, h, |f|) && 0 <= x < |f|
    ensures i < |f| && e[x] == Head(bh, i) && f[i] == (if x + h < |f| then x + h else x + h - |f|)
  {
    var p := if x + h < |f| then x + h else x + h - |f|;
    PermutationHits(f, p);
    i :| 0 <= i < |f| && f[i] == p;
    assert e[Back(f[i], h, |f|)] == Head(bh, i);
  }

  lemma CyclicKey(b: seq<Byte>, x: nat, h: nat)
    requires x < |b| && 1 <= h <= |b|
    ensures Key(b, x + h, h) == Key(b, if x + h < |b| then x + h else x + h - |b|, h)
  {
    if x + h >= |b| { KeyCyclic(b, x + h - |b|, h); }
  }

  /** Positions with equal keys k are ordered by e as by k2. */
  ghost predicate ClassesRefine(k: seq<int>, k2: seq<int>, e: seq<int>) {
    && |k| == |k2| == |e|
    && (forall x, y :: 0 <= x < |k| && 0 <= y < |k| && k[x] == k[y] ==>
          (e[x] < e[y] <==> k2[x] < k2[y]) && (e[x] == e[y] <==> k2[x] == k2[y]))
    && (forall x :: 0 <= x < |k| ==> e[x] >= 0)
  }

  /** More characters only refine the order. */
  ghost predicate Finer(k: seq<int>, k2: seq<int>) {
    && |k| == |k2|
    && forall x, y :: 0 <= x < |k| && 0 <= y < |k| && k[x] < k[y] ==> k2[x] < k2[y]
  }

  lemma KeysFiner(b: seq<Byte>, h: nat, h2: nat)
    requires |b| > 0 && h <= h2
    ensures Finer(KeysOf(b, h), KeysOf(b, h2))
  {
    var k, k2 := KeysOf(b, h), KeysOf(b, h2);
    forall x, y | 0 <= x < |b| && 0 <= y < |b| && k[x] < k[y] ensures k2[x] < k2[y] {
      KeyShorter(b, x, y, h, h2);
    }
  }

  /** The class of x is the rank of the h characters after its first h. */
  lemma ClassOrder(b: seq<Byte>, f: seq<int>, bh: seq<bool>, e: seq<int>, h: nat, x: int, y: int)
    requires |b| > 0 && 1 <= h <= |b| && Refined(KeysOf(b, h), f, bh) && ClassedTo(f, bh, e, h, |f|)
    requires 0 <= x < |b| && 0 <= y < |b| && Key(b, x, h) == Key(b, y, h)
    ensures e[x] >= 0
    ensures e[x] < e[y] <==> Key(b, x, h + h) < Key(b, y, h + h)
    ensures e[x] == e[y] <==> Key(b, x, h + h) == Key(b, y, h + h)
  {
    var k := KeysOf(b, h);
    var i := ClassAt(f, bh, e, h, x);
    var j := ClassAt(f, bh, e, h, y);
    CyclicKey(b, x, h);
    CyclicKey(b, y, h);
    assert k[f[i]] == Key(b, x + h, h) && k[f[j]] == Key(b, y + h, h);
    KeySplit(b, x, y, h, h);
    if i <= j {
      HeadOrder(k, f, bh, i, j);
      assert k[f[i]] <= k[f[j]];
    } else {
      HeadOrder(k, f, bh, j, i);
      assert k[f[j]] <= k[f[i]];
    }
  }

  lemma ClassesAreRanks(b: seq<Byte>, f: seq<int>, bh: seq<bool>, e: seq<int>, h: nat)
    requires |b| > 0 && 1 <= h <= |b| && Refined(KeysOf(b, h), f, bh) && ClassedTo(f, bh, e, h, |f|)
    ensures ClassesRefine(KeysOf(b, h), KeysOf(b, h + h), e)
  {
    var k, k2 := KeysOf(b, h), KeysOf(b, h + h);
    forall x, y | 0 <= x < |k| && 0 <= y < |k| && k[x] == k[y]
      ensures e[x] >= 0 && (e[x] < e[y] <==> k2[x] < k2[y]) && (e[x] == e[y] <==> k2[x] == k2[y])
    {
      ClassOrder(b, f, bh, e, h, x, y);
    }
    forall x | 0 <= x < |k| ensures e[x] >= 0 {
      ClassOrder(b, f, bh, e, h, x, x);
    }
  }

  /** The round so far: buckets up to r refined to the keys k2, the rest untouched. The key k at
      each place never changes. */
  ghost predicate RefinedTo(k: seq<int>, k2: seq<int>, f0: seq<int>, bh0: seq<bool>, f: seq<int>, bh: seq<bool>, r: int) {
    && |k| == |k2| == |f0| == |f| > 0 && |bh0| == |bh| > |f| && -1 <= r < |f|
    && IsPermutation(f) && InRange(f0, |k|)
    && (forall i :: 0 <= i < |f| ==> k[f[i]] == k[f0[i]])
    && (forall i, j :: 0 <= i < j <= r ==> k2[f[i]] <= k2[f[j]])
    && (forall i :: 0 <= i <= r ==> bh[i] == Boundary(k2, f, i))
    && (forall i :: r < i < |f| ==> f[i] == f0[i])
    && (forall i :: r < i < |bh| ==> bh[i] == bh0[i])
    && (r >= 0 ==> bh0[r + 1])
  }

  /** Everything before a bucket header is below everything from it on. */
  lemma HeaderSplits(k: seq<int>, k2: seq<int>, f0: seq<int>, bh0: seq<bool>, f: seq<int>, l: int, i: int, j: int)
    requires Refined(k, f0, bh0) && Finer(k, k2) && |f| == |f0| && InRange(f, |k|)
    requires forall i :: 0 <= i < |f| ==> k[f[i]] == k[f0[i]]
    requires 0 <= i < l <= j < |f| && bh0[l]
    ensures k2[f[i]] < k2[f[j]]
  {
    assert bh0[l] == Boundary(k, f0, l);
    assert k[f0[l - 1]] < k[f0[l]];
    assert k[f0[i]] <= k[f0[l - 1]] && k[f0[l]] <= k[f0[j]];
  }

  /** A singleton bucket needs no work. */
  lemma SkipSingleton(k: seq<int>, k2: seq<int>, f0: seq<int>, bh0: seq<bool>, f: seq<int>, bh: seq<bool>, r: int)
    requires Refined(k, f0, bh0) && Finer(k, k2) && RefinedTo(k, k2, f0, bh0, f, bh, r)
    requires r + 1 < |f| && bh0[r + 1] && bh0[r + 2]
    ensures RefinedTo(k, k2, f0, bh0, f, bh, r + 1)
  {
    forall i | 0 <= i <= r ensures k2[f[i]] < k2[f[r + 1]] {
      HeaderSplits(k, k2, f0, bh0, f, r + 1, i, r + 1);
    }
  }

  /** Skipping singletons up to place l. */
  lemma {:induction false} SkipSingletons(k: seq<int>, k2: seq<int>, f0: seq<int>, bh0: seq<bool>, f: seq<int>, bh: seq<bool>, r: int, l: int)
    requires Refined(k, f0, bh0) && Finer(k, k2) && RefinedTo(k, k2, f0, bh0, f, bh, r) && r < l <= |f|
    requires forall i :: r < i <= l ==> bh[i]
    ensures RefinedTo(k, k2, f0, bh0, f, bh, l - 1)
    decreases l - r
  {
    if r + 1 < l {
      assert bh[r + 1] == bh0[r + 1] && bh[r + 2] == bh0[r + 2];
      SkipSingleton(k, k2, f0, bh0, f, bh, r);
      SkipSingletons(k, k2, f0, bh0, f, bh, r + 1, l);
    }
  }

  /** Places inside one bucket share their key. */
  lemma {:induction false} BucketKeys(k: seq<int>, f0: seq<int>, bh0: seq<bool>, l: int, r: int)
    requires Refined(k, f0, bh0) && 0 <= l <= r < |f0| && forall i :: l < i <= r ==> !bh0[i]
    ensures k[f0[r]] == k[f0[l]]
    decreases r
  {
    if l < r {
      BucketKeys(k, f0, bh0, l, r - 1);
      assert bh0[r] == Boundary(k, f0, r);
    }
  }

  /** Place i of a bucket that starts at l begins a new class. */
  ghost predicate ClassChanges(f: seq<int>, e: seq<int>, i: int, l: int)
    requires InRange(f, |e|) && 0 <= l <= i < |f|
  {
    i == l || e[f[i - 1]] != e[f[i]]
  }

  /** Rearranging a bucket keeps the key at each place. */
  lemma RefineKeys(k: seq<int>, k2: seq<int>, f0: seq<int>, bh0: seq<bool>, f: seq<int>, bh: seq<bool>, f': seq<int>, l: int, r: int)
    requires Refined(k, f0, bh0) && 0 <= l < r < |f0| && RefinedTo(k, k2, f0, bh0, f, bh, l - 1)
    requires forall i :: l < i <= r ==> !bh0[i]
    requires Rearranged(f, f', l, r)
    ensures |f'| == |f| && IsPermutation(f')
    ensures forall i :: 0 <= i < |f| ==> k[f'[i]] == k[f0[i]]
    ensures forall i :: l <= i <= r ==> k[f'[i]] == k[f0[l]]
  {
    RearrangedMultiset(f, f', l, r);
    PermutationRearranged(f, f');
    forall i | l <= i <= r ensures k[f'[i]] == k[f0[l]] == k[f0[i]] {
      var j := RearrangedFrom(f, f', l, r, i);
      BucketKeys(k, f0, bh0, l, j);
      BucketKeys(k, f0, bh0, l, i);
    }
  }

  /** A bucket sorted by class is in the order of k2. */
  lemma RefineOrder(k: seq<int>, k2: seq<int>, e: seq<int>, f': seq<int>, l: int, r: int, key: int)
    requires ClassesRefine(k, k2, e) && 0 <= l < r < |f'| && InRange(f', |k|) && SortedBy(f', e, l, r)
    requires forall i :: l <= i <= r ==> k[f'[i]] == key
    ensures forall i, j :: l <= i < j <= r ==> k2[f'[i]] <= k2[f'[j]]
    ensures forall i :: l < i <= r ==> ClassChanges(f', e, i, l) == Boundary(k2, f', i)
  {
    forall i, j | l <= i < j <= r ensures k2[f'[i]] <= k2[f'[j]] {
      assert e[f'[i]] <= e[f'[j]] && k[f'[i]] == k[f'[j]];
    }
    forall i | l < i <= r ensures ClassChanges(f', e, i, l) == Boundary(k2, f', i) {
      assert k[f'[i - 1]] == k[f'[i]];
    }
  }

  /** A bucket sorted by class, with header bits where the class changes, is refined. */
  lemma RefineBucket(k: seq<int>, k2: seq<int>, f0: seq<int>, bh0: seq<bool>, e: seq<int>,
                     f: seq<int>, bh: seq<bool>, f': seq<int>, bh': seq<bool>, l: int, r: int)
    requires Refined(k, f0, bh0) && Finer(k, k2) && ClassesRefine(k, k2, e)
    requires 0 <= l < r < |f0| && RefinedTo(k, k2, f0, bh0, f, bh, l - 1)
    requires bh0[l] && bh0[r + 1] && forall i :: l < i <= r ==> !bh0[i]
    requires Rearranged(f, f', l, r) && InRange(f', |e|) && SortedBy(f', e, l, r)
    requires |bh'| == |bh| && forall i :: 0 <= i < |bh| && !(l <= i <= r) ==> bh'[i] == bh[i]
    requires forall i :: l <= i <= r ==> bh'[i] == (bh[i] || ClassChanges(f', e, i, l))
    ensures RefinedTo(k, k2, f0, bh0, f', bh', r)
  {
    RefineKeys(k, k2, f0, bh0, f, bh, f', l, r);
    RefineOrder(k, k2, e, f', l, r, k[f0[l]]);
    forall i, j | 0 <= i < l <= j < |f| ensures k2[f'[i]] < k2[f'[j]] {
      HeaderSplits(k, k2, f0, bh0, f', l, i, j);
    }
    forall i | 0 <= i < l ensures bh'[i] == Boundary(k2, f', i) {
      assert f'[i] == f[i] && (i > 0 ==> f'[i - 1] == f[i - 1]);
    }
    assert bh'[l] && Boundary(k2, f', l);
    assert forall i :: l < i <= r ==> bh[i] == bh0[i];
  }

  /** A round that has reached the end of the block leaves it refined. */
  lemma RoundDone(k: seq<int>, k2: seq<int>, f0: seq<int>, bh0: seq<bool>, f: seq<int>, bh: seq<bool>)
    requires RefinedTo(k, k2, f0, bh0, f, bh, |f| - 1)
    ensures Refined(k2, f, bh)
  {
  }

  /** Searches for the first place from k0 on whose header bit is not v, a word of 32 bits at a
      time where the search is aligned. */
  method SkipBits(bh: array<bool>, k0: nat, v: bool, ghost stop: nat) returns (k: nat)
    requires k0 <= stop && stop + 32 <= bh.Length && bh[stop] != v
    ensures k0 <= k <= stop && bh[k] != v
    ensures forall i :: k0 <= i < k ==> bh[i] == v
  {
    k := k0;
    while bh[k] == v && k % 32 != 0
      invariant k0 <= k <= stop && forall i :: k0 <= i < k ==> bh[i] == v
      decreases stop - k
    {
      k := k + 1;
    }
    if bh[k] == v {
      while forall i :: k <= i < k + 32 ==> bh[i] == v
        invariant k0 <= k <= stop && forall i :: k0 <= i < k ==> bh[i] == v
        decreases stop - k
      {
        k := k + 32;
      }
      while bh[k] == v
        invariant k0 <= k <= stop && forall i :: k0 <= i < k ==> bh[i] == v
        decreases stop - k
      {
        k := k + 1;
      }
    }
  }

  /** Sets a header bit wherever the class changes inside l..r. */
  method SetHeaders(fmap: array<int>, eclass: array<int>, bh: array<bool>, l: int, r: int)
    requires 0 <= l <= r < fmap.Length && InRange(fmap[..], eclass.Length) && fmap.Length <= bh.Length
    requires forall k :: 0 <= k < eclass.Length ==> eclass[k] >= 0
    modifies bh
    ensures forall i :: 0 <= i < bh.Length && !(l <= i <= r) ==> bh[i] == old(bh[i])
    ensures forall i :: l <= i <= r ==> bh[i] == (old(bh[i]) || ClassChanges(fmap[..], eclass[..], i, l))
  {
    var cc := -1;
    for i := l to r + 1
      invariant i == l ==> cc == -1
      invariant i > l ==> cc == eclass[fmap[i - 1]]
      invariant forall k :: 0 <= k < bh.Length && !(l <= k < i) ==> bh[k] == old(bh[k])
      invariant forall k :: l <= k < i ==> bh[k] == (old(bh[k]) || ClassChanges(fmap[..], eclass[..], k, l))
    {
      var cc1 := eclass[fmap[i]];
      if cc != cc1 {
        bh[i] := true;
        cc := cc1;
      }
    }
  }

  /** Finds the next bucket of more than one place after r, or none. */
  method NextBucket(bh: array<bool>, nblock: nat, r: int) returns (found: bool, l: int, r': int)
    requires -1 <= r < nblock && Sentinels(bh[..], nblock) && bh[r + 1]
    ensures r < l <= nblock && (!found ==> l == nblock) && forall i :: r < i <= l ==> bh[i]
    ensures found ==> l < r' < nblock && bh[r' + 1] && forall i :: l < i <= r' ==> !bh[i]
  {
    assert bh[nblock];
    var k := SkipBits(bh, r + 1, true, nblock + 1);
    l := k - 1;
    if l >= nblock { return false, l, r; }
    k := SkipBits(bh, k, false, nblock);
    found, r' := true, k - 1;
  }

  /** Sorts one bucket and marks its new headers. */
  method SortBucket(fmap: array<int>, eclass: array<int>, bh: array<bool>, nblock: nat, l: int, r: int,
                    ghost k: seq<int>, ghost k2: seq<int>, ghost f0: seq<int>, ghost bh0: seq<bool>)
    requires fmap != eclass && fmap.Length == eclass.Length == nblock <= 900000
    requires Refined(k, f0, bh0) && Finer(k, k2) && ClassesRefine(k, k2, eclass[..])
    requires 0 <= l < r < nblock && RefinedTo(k, k2, f0, bh0, fmap[..], bh[..], l - 1)
    requires bh[l] && bh[r + 1] && forall i :: l < i <= r ==> !bh[i]
    modifies fmap, bh
    ensures RefinedTo(k, k2, f0, bh0, fmap[..], bh[..], r)
    ensures forall i :: r < i < bh.Length ==> bh[i] == old(bh[i])
  {
    ghost var f, hd := fmap[..], bh[..];
    assert forall i :: l <= i < bh.Length ==> hd[i] == bh0[i];
    FallbackQSort3(fmap, eclass, l, r);
    SetHeaders(fmap, eclass, bh, l, r);
    RefineBucket(k, k2, f0, bh0, eclass[..], f, hd, fmap[..], bh[..], l, r);
  }

  /** One doubling round. */
  method Round(fmap: array<int>, eclass: array<int>, bh: array<bool>, nblock: nat, h: nat, ghost b: seq<Byte>)
    returns (nNotDone: nat)
    requires fmap != eclass && fmap.Length == eclass.Length == nblock == |b| <= 900000
    requires 1 <= h <= nblock && Refined(KeysOf(b, h), fmap[..], bh[..]) && Sentinels(bh[..], nblock)
    modifies fmap, eclass, bh
    ensures Refined(KeysOf(b, h + h), fmap[..], bh[..]) && Sentinels(bh[..], nblock)
    ensures nNotDone == 0 ==> fmap[..] == old(fmap[..]) && forall i :: 0 <= i < nblock ==> old(bh[i])
  {
    AssignClasses(fmap, eclass, bh, nblock, h);
    ghost var f0, bh0, k, k2 := fmap[..], bh[..], KeysOf(b, h), KeysOf(b, h + h);
    ClassesAreRanks(b, f0, bh0, eclass[..], h);
    KeysFiner(b, h, h + h);
    nNotDone := RefineAll(fmap, eclass, bh, nblock, k, k2, f0, bh0);
    RoundDone(k, k2, f0, bh0, fmap[..], bh[..]);
  }

  /** Skips to the next bucket of more than one place and refines it. */
  method RefineNext(fmap: array<int>, eclass: array<int>, bh: array<bool>, nblock: nat, r: int,
                    ghost k: seq<int>, ghost k2: seq<int>, ghost f0: seq<int>, ghost bh0: seq<bool>)
    returns (size: nat, r': int)
    requires fmap != eclass && fmap.Length == eclass.Length == nblock <= 900000
    requires Refined(k, f0, bh0) && Finer(k, k2) && ClassesRefine(k, k2, eclass[..])
    requires RefinedTo(k, k2, f0, bh0, fmap[..], bh[..], r) && Sentinels(bh[..], nblock)
    modifies fmap, bh
    ensures RefinedTo(k, k2, f0, bh0, fmap[..], bh[..], if size > 0 then r' else nblock - 1)
    ensures forall i :: nblock <= i < bh.Length ==> bh[i] == old(bh[i])
    ensures size > 0 ==> r < r' < nblock
    ensures size == 0 ==> fmap[..] == old(fmap[..]) && forall i :: r < i < nblock ==> bh0[i]
  {
    assert bh[r + 1] == bh0[r + 1];
    assert bh0[0] == Boundary(k, f0, 0);
    var found, l;
    found, l, r' := NextBucket(bh, nblock, r);
    SkipSingletons(k, k2, f0, bh0, fmap[..], bh[..], r, l);
    if !found { return 0, r'; }
    size := r' - l + 1;
    SortBucket(fmap, eclass, bh, nblock, l, r', k, k2, f0, bh0);
  }

  lemma SentinelsKept(bh: seq<bool>, bh': seq<bool>, n: int)
    requires Sentinels(bh, n) && |bh'| == |bh| && forall i :: n <= i < |bh| ==> bh'[i] == bh[i]
    ensures Sentinels(bh', n)
  {
  }

  /** The bucket loop of a round. */
  method RefineAll(fmap: array<int>, eclass: array<int>, bh: array<bool>, nblock: nat,
                   ghost k: seq<int>, ghost k2: seq<int>, ghost f0: seq<int>, ghost bh0: seq<bool>)
    returns (nNotDone: nat)
    requires fmap != eclass && fmap.Length == eclass.Length == nblock <= 900000
    requires f0 == fmap[..] && bh0 == bh[..]
    requires Refined(k, f0, bh0) && Finer(k, k2) && ClassesRefine(k, k2, eclass[..]) && Sentinels(bh0, nblock)
    modifies fmap, bh
    ensures RefinedTo(k, k2, f0, bh0, fmap[..], bh[..], nblock - 1) && Sentinels(bh[..], nblock)
    ensures nNotDone == 0 ==> fmap[..] == f0 && forall i :: 0 <= i < nblock ==> bh0[i]
  {
    nNotDone := 0;
    var r := -1;
    while true
      invariant RefinedTo(k, k2, f0, bh0, fmap[..], bh[..], r) && Sentinels(bh[..], nblock)
      invariant nNotDone == 0 ==> r == -1 && fmap[..] == f0
      decreases nblock - r
    {
      ghost var hd := bh[..];
      var size, r' := RefineNext(fmap, eclass, bh, nblock, r, k, k2, f0, bh0);
      SentinelsKept(hd, bh[..], nblock);
      if size == 0 { break; }
      nNotDone := nNotDone + size;
      r := r';
    }
  }

  /** The one-character order and its bucket starts are the state before the first round. */
  lemma RadixIsRefined(b: seq<Byte>, f: seq<int>, bh: seq<bool>)
    requires |b| > 0 && Bucketed(b, f) && |b| < |bh|
    requires forall i :: 0 <= i < |b| ==> bh[i] == IsStart(b, i)
    ensures Refined(KeysOf(b, 1), f, bh)
  {
    var k := KeysOf(b, 1);
    forall x | 0 <= x < |b| ensures k[x] == b[x] {
      assert Key(b, x, 0) == 0;
      assert x + 1 - 1 == x;
    }
    forall i, j | 0 <= i < j < |f| ensures k[f[i]] <= k[f[j]] {
      BucketOrder(b, b[f[i]], b[f[j]], i, j);
    }
    forall i | 0 <= i < |f| ensures bh[i] == Boundary(k, f, i) {
      StartIsBoundary(b, f, i);
    }
  }

  /** Place i is where the bucket of some character starts. */
  ghost predicate IsStart(b: seq<Byte>, i: int) {
    exists c: nat :: c < 256 && Below(b, c) == i
  }

  lemma StartIsBoundary(b: seq<Byte>, f: seq<int>, i: int)
    requires Bucketed(b, f) && 0 <= i < |f|
    ensures IsStart(b, i) <==> i == 0 || b[f[i - 1]] != b[f[i]]
  {
    var c: int := b[f[i]];
    if i == 0 {
      assert Below(b, 0) == 0;
    } else {
      if b[f[i - 1]] != c {
        BucketOrder(b, b[f[i - 1]], c, i - 1, i);
        BelowMonotone(b, b[f[i - 1]] as int + 1, c);
        if Below(b, c) < i { BucketOrder(b, c, b[f[i - 1]], i - 1, i - 1); }
        assert Below(b, c) == i;
      } else if IsStart(b, i) {
        var d: nat :| d < 256 && Below(b, d) == i;
        if d <= c { BelowMonotone(b, d, c); } else { BelowMonotone(b, c + 1, d); }
      }
    }
  }

  /** Clears the header bits, marks the bucket starts and the sentinels. */
  method MarkStarts(bh: array<bool>, ftab: array<int>, nblock: nat, ghost b: seq<Byte>)
    requires |b| == nblock > 0 && nblock + 96 <= bh.Length && ftab.Length == 257
    requires forall c: nat :: c < 256 ==> ftab[c] == Below(b, c)
    modifies bh
    ensures Sentinels(bh[..], nblock)
    ensures forall i :: 0 <= i < nblock ==> bh[i] == IsStart(b, i)
  {
    var nBhtab := 2 + nblock / 32;
    for i := 0 to 32 * nBhtab
      invariant forall k :: 0 <= k < i ==> !bh[k]
    {
      bh[i] := false;
    }
    BelowAll(b, 256);
    for i := 0 to 256
      invariant forall k :: 0 <= k < nblock ==> bh[k] == exists c: nat :: c < i && Below(b, c) == k
    {
      BelowMonotone(b, i, 256);
      bh[ftab[i]] := true;
    }
    for i := 0 to 32
      invariant forall k :: 0 <= k < nblock ==> bh[k] == IsStart(b, k)
      invariant forall k :: nblock <= k < nblock + 2 * i && (k - nblock) % 2 == 0 ==> bh[k]
      invariant forall k :: nblock <= k < nblock + 2 * i && (k - nblock) % 2 == 1 ==> !bh[k]
    {
      bh[nblock + 2 * i] := true;
      bh[nblock + 2 * i + 1] := false;
    }
  }

  /** Ordered by at least n characters is sorted, and so is strictly ordered by fewer. */
  lemma RefinedIsSorted(b: seq<Byte>, f: seq<int>, bh: seq<bool>, h: nat)
    requires |b| > 0 && Refined(KeysOf(b, h), f, bh)
    requires h >= |b| || forall i :: 0 <= i < |b| ==> bh[i]
    ensures SortedByKey(b, f, |b|)
  {
    var k := KeysOf(b, h);
    forall i, j | 0 <= i < j < |f| ensures Key(b, f[i], |b|) <= Key(b, f[j], |b|) {
      if h >= |b| {
        assert k[f[i]] <= k[f[j]];
        KeyShorter(b, f[i], f[j], |b|, h);
      } else {
        assert bh[j] == Boundary(k, f, j);
        assert k[f[i]] <= k[f[j - 1]] < k[f[j]];
        KeyShorter(b, f[i], f[j], h, |b|);
      }
    }
  }

  lemma SortedCharsAscend(b: seq<Byte>, f: seq<int>)
    requires |b| > 0 && SortedByKey(b, f, |b|)
    ensures Ascending(Chars(b, f))
  {
    var g := Chars(b, f);
    forall i, j | 0 <= i < j < |g| ensures g[i] <= g[j] {
      KeyShorter(b, f[i], f[j], 1, |b|);
      assert Key(b, f[i], 0) == 0 && Key(b, f[j], 0) == 0;
      assert f[i] + 1 - 1 == f[i] && f[j] + 1 - 1 == f[j];
    }
  }

  /** The doubling loop: rounds until every bucket is a singleton or all characters count. */
  method DoublingLoop(fmap: array<int>, eclass: array<int>, bh: array<bool>, nblock: nat, ghost b: seq<Byte>)
    requires fmap != eclass && fmap.Length == eclass.Length == nblock == |b| && 0 < nblock <= 900000
    requires Refined(KeysOf(b, 1), fmap[..], bh[..]) && Sentinels(bh[..], nblock)
    modifies fmap, eclass, bh
    ensures IsPermutation(fmap[..]) && SortedByKey(b, fmap[..], nblock)
  {
    var h := 1;
    while true
      invariant 1 <= h <= nblock && Refined(KeysOf(b, h), fmap[..], bh[..]) && Sentinels(bh[..], nblock)
      decreases nblock - h
    {
      ghost var f, hd := fmap[..], bh[..];
      var nNotDone := Round(fmap, eclass, bh, nblock, h, b);
      if nNotDone == 0 { RefinedIsSorted(b, f, hd, h); }
      h := 2 * h;
      if h > nblock || nNotDone == 0 {
        if nNotDone != 0 { RefinedIsSorted(b, fmap[..], bh[..], h); }
        break;
      }
    }
  }

  /** fallbackSort: lists the rotations in order, and leaves the block as it was although the
      class words have overwritten it. */
  method FallbackSort(fmap: array<int>, eclass: array<int>, bh: array<bool>, nblock: nat, ghost b: seq<Byte>)
    requires fmap != eclass && fmap.Length == eclass.Length == nblock == |b| && 0 < nblock <= 900000
    requires nblock + 96 <= bh.Length && Bytes(eclass[..], nblock) == b
    modifies fmap, eclass, bh
    ensures SortsRotations(b, fmap[..])
    ensures Bytes(eclass[..], nblock) == b
  {
    var ftab, ftabCopy := RadixPass(fmap, eclass, nblock, b);
    MarkStarts(bh, ftab, nblock, b);
    RadixIsRefined(b, fmap[..], bh[..]);
    DoublingLoop(fmap, eclass, bh, nblock, b);
    SortedByKeyIsSorted(b, fmap[..]);
    SortedCharsAscend(b, fmap[..]);
    SortedIsBucketed(b, fmap[..]);
    Rebuild(fmap, eclass, ftabCopy, nblock, b);
  }

  /** BZ2_blockSort by way of fallbackSort: the sorted order, and the row of the block itself. */
  method BlockSort(ptr: array<int>, block: array<int>, ftab: array<bool>, nblock: nat, ghost b: seq<Byte>)
    returns (origPtr: int)
    requires ptr != block && ptr.Length == block.Length == nblock == |b| && 0 < nblock <= 900000
    requires nblock + 96 <= ftab.Length && Bytes(block[..], nblock) == b
    modifies ptr, block, ftab
    ensures SortsRotations(b, ptr[..]) && Bytes(block[..], nblock) == b
    ensures 0 <= origPtr < nblock && ptr[origPtr] == 0
  {
    FallbackSort(ptr, block, ftab, nblock, b);
    origPtr := -1;
    PermutationHits(ptr[..], 0);
    for i := 0 to nblock
      invariant forall k :: 0 <= k < i ==> ptr[k] != 0
    {
      if ptr[i] == 0 { return i; }
    }
    assert false;
  }
}
