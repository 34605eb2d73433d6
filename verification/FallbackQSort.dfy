/** Sorting a stretch of fmap by eclass: the insertion passes and the three-way quicksort with
    an explicit stack of blocksort.c. */
module FallbackQSort {
  import opened Sequences
  import opened Bits

  /** t is s with the positions lo..hi rearranged. */
  ghost predicate Rearranged(s: seq<int>, t: seq<int>, lo: int, hi: int) {
    && |s| == |t|
    && (forall x :: Count(s, x) == Count(t, x))
    && (forall k :: 0 <= k < |s| && (k < lo || hi < k) ==> s[k] == t[k])
  }

  /** The classes of positions lo..hi ascend weakly. */
  ghost predicate SortedBy(f: seq<int>, e: seq<int>, lo: int, hi: int)
    requires InRange(f, |e|)
  {
    forall i, j :: 0 <= lo <= i < j <= hi < |f| ==> e[f[i]] <= e[f[j]]
  }

  lemma RearrangedMultiset(s: seq<int>, t: seq<int>, lo: int, hi: int)
    requires Rearranged(s, t, lo, hi)
    ensures multiset(s) == multiset(t)
  {
    forall x: int ensures multiset(s)[x] == multiset(t)[x] {
      CountIsMultiplicity(s, x);
      CountIsMultiplicity(t, x);
    }
  }

  /** Every entry of the rearranged stretch came from that stretch. */
  lemma RearrangedFrom(s: seq<int>, t: seq<int>, lo: int, hi: int, k: int) returns (j: int)
    requires Rearranged(s, t, lo, hi) && 0 <= lo <= k <= hi < |s|
    ensures lo <= j <= hi && s[j] == t[k]
  {
    RearrangedMultiset(s, t, lo, hi);
    assert s[..lo] == t[..lo] && s[hi + 1..] == t[hi + 1..];
    SliceMultiset(s, t, lo, hi + 1);
    assert t[lo..hi + 1][k - lo] == t[k];
    assert t[k] in multiset(s[lo..hi + 1]);
    var d :| 0 <= d < hi + 1 - lo && s[lo..hi + 1][d] == t[k];
    j := lo + d;
  }

  lemma RearrangedInRange(s: seq<int>, t: seq<int>, lo: int, hi: int, n: int)
    requires Rearranged(s, t, lo, hi) && InRange(s, n) && 0 <= lo && hi < |s|
    ensures InRange(t, n)
  {
    forall k | 0 <= k < |t| ensures 0 <= t[k] < n {
      if lo <= k <= hi {
        var j := RearrangedFrom(s, t, lo, hi, k);
      }
    }
  }

  lemma RearrangedSwap(s: seq<int>, t: seq<int>, lo: int, hi: int, i: int, j: int)
    requires Rearranged(s, t, lo, hi) && 0 <= lo <= i <= hi < |s| && lo <= j <= hi
    ensures Rearranged(s, t[i := t[j]][j := t[i]], lo, hi)
  {
    forall x ensures Count(t[i := t[j]][j := t[i]], x) == Count(t, x) {
      CountUpdate(t, i, t[j], x);
      CountUpdate(t[i := t[j]], j, t[i], x);
    }
  }

  /** The insertion loop at j: the hole is at j - gap, and with gap 1 the entries i+1..j-1,
      all below the one in hand, have moved one place left. */
  ghost predicate Inserting(was: seq<int>, f: seq<int>, e: seq<int>, i: int, hi: int, gap: int, j: int)
    requires 0 <= i <= hi < |was|
  {
    && |f| == |was| && InRange(was, |e|) && InRange(f, |e|) && i <= j - gap <= hi
    && Rearranged(was, f[j - gap := was[i]], i, hi)
    && (gap == 1 ==> forall k :: i <= k < j - 1 ==> f[k] == was[k + 1])
    && (gap == 1 ==> forall k :: i < k < j ==> e[was[k]] < e[was[i]])
    && (gap == 1 ==> forall k :: j <= k <= hi ==> f[k] == was[k])
  }

  lemma InsertStep(was: seq<int>, f: seq<int>, e: seq<int>, i: int, hi: int, gap: int, j: int)
    requires 0 <= i <= hi < |was| && gap >= 1 && j <= hi && Inserting(was, f, e, i, hi, gap, j)
    requires e[was[i]] > e[f[j]]
    ensures Inserting(was, f[j - gap := f[j]], e, i, hi, gap, j + gap)
  {
    var s := f[j - gap := was[i]];
    RearrangedSwap(was, s, i, hi, j - gap, j);
    assert s[j - gap := s[j]][j := s[j - gap]] == f[j - gap := f[j]][j := was[i]];
  }

  lemma InsertedSorted(was: seq<int>, f: seq<int>, e: seq<int>, i: int, hi: int, j: int)
    requires 0 <= i <= hi < |was| && Inserting(was, f, e, i, hi, 1, j)
    requires SortedBy(was, e, i + 1, hi) && (j <= hi ==> e[was[i]] <= e[was[j]])
    ensures InRange(f[j - 1 := was[i]], |e|) && SortedBy(f[j - 1 := was[i]], e, i, hi)
  {
    var g := f[j - 1 := was[i]];
    forall a, b | i <= a < b <= hi ensures e[g[a]] <= e[g[b]] {
      assert a < j - 1 ==> g[a] == was[a + 1];
      assert b < j - 1 ==> g[b] == was[b + 1];
    }
  }

  lemma InsertStart(was: seq<int>, e: seq<int>, i: int, hi: int, gap: int)
    requires 0 <= i <= hi < |was| && gap >= 1 && InRange(was, |e|)
    ensures Inserting(was, was, e, i, hi, gap, i + gap)
  {
    assert was[i + gap - gap := was[i]] == was;
  }

  lemma InsertDone(was: seq<int>, f: seq<int>, e: seq<int>, i: int, hi: int, gap: int, j: int)
    requires 0 <= i <= hi < |was| && gap >= 1 && Inserting(was, f, e, i, hi, gap, j)
    requires j > hi || e[was[i]] <= e[f[j]]
    ensures var g := f[j - gap := was[i]];
            && Rearranged(was, g, i, hi) && InRange(g, |e|)
            && (gap == 1 && SortedBy(was, e, i + 1, hi) ==> SortedBy(g, e, i, hi))
  {
    if gap == 1 && SortedBy(was, e, i + 1, hi) {
      InsertedSorted(was, f, e, i, hi, j);
    }
  }

  /** Inserts fmap[i] into its chain i, i+gap, i+2*gap, ... up to hi. With gap 1 the chain is
      all of i..hi. */
  method Insert(fmap: array<int>, eclass: array<int>, i: int, hi: int, gap: int)
    requires fmap != eclass && 0 <= i <= hi < fmap.Length && gap >= 1
    requires InRange(fmap[..], eclass.Length)
    modifies fmap
    ensures Rearranged(old(fmap[..]), fmap[..], i, hi) && InRange(fmap[..], eclass.Length)
    ensures gap == 1 && SortedBy(old(fmap[..]), eclass[..], i + 1, hi) ==> SortedBy(fmap[..], eclass[..], i, hi)
  {
    ghost var was, e := fmap[..], eclass[..];
    var tmp := fmap[i];
    var ecTmp := eclass[tmp];
    var j := i + gap;
    InsertStart(was, e, i, hi, gap);
    while j <= hi && ecTmp > eclass[fmap[j]]
      invariant eclass[..] == e && Inserting(was, fmap[..], e, i, hi, gap, j)
    {
      ghost var f := fmap[..];
      InsertStep(was, f, e, i, hi, gap, j);
      fmap[j - gap] := fmap[j];
      assert fmap[..] == f[j - gap := f[j]];
      j := j + gap;
    }
    ghost var f := fmap[..];
    InsertDone(was, f, e, i, hi, gap, j);
    fmap[j - gap] := tmp;
    assert fmap[..] == f[j - gap := was[i]];
  }

  /** A pass of insertions from the right. */
  method InsertionPass(fmap: array<int>, eclass: array<int>, lo: int, hi: int, gap: int)
    requires fmap != eclass && 0 <= lo && hi < fmap.Length && gap >= 1
    requires InRange(fmap[..], eclass.Length)
    modifies fmap
    ensures Rearranged(old(fmap[..]), fmap[..], lo, hi) && InRange(fmap[..], eclass.Length)
    ensures gap == 1 ==> SortedBy(fmap[..], eclass[..], lo, hi)
  {
    var i := hi - gap;
    while i >= lo
      invariant i <= hi - gap && (i >= lo - 1 || i == hi - gap) && InRange(fmap[..], eclass.Length)
      invariant Rearranged(old(fmap[..]), fmap[..], lo, hi)
      invariant gap == 1 ==> SortedBy(fmap[..], eclass[..], i + 1, hi)
    {
      Insert(fmap, eclass, i, hi, gap);
      i := i - 1;
    }
  }

  method FallbackSimpleSort(fmap: array<int>, eclass: array<int>, lo: int, hi: int)
    requires fmap != eclass && 0 <= lo && hi < fmap.Length
    requires InRange(fmap[..], eclass.Length)
    modifies fmap
    ensures Rearranged(old(fmap[..]), fmap[..], lo, hi) && InRange(fmap[..], eclass.Length)
    ensures SortedBy(fmap[..], eclass[..], lo, hi)
  {
    if lo == hi { return; }
    if hi - lo > 3 {
      InsertionPass(fmap, eclass, lo, hi, 4);
    }
    InsertionPass(fmap, eclass, lo, hi, 1);
  }

  /** t is s with the first d of n entries at p1 and p2 exchanged. */
  ghost predicate BlocksSwapped(s: seq<int>, t: seq<int>, p1: int, p2: int, n: int, d: int) {
    && |t| == |s| && 0 <= p1 && 0 <= d <= n && p1 + n <= p2 && p2 + n <= |s|
    && (forall k :: p1 <= k < p1 + d ==> t[k] == s[k + (p2 - p1)])
    && (forall k :: p2 <= k < p2 + d ==> t[k] == s[k - (p2 - p1)])
    && (forall k :: 0 <= k < |s| && !(p1 <= k < p1 + d) && !(p2 <= k < p2 + d) ==> t[k] == s[k])
  }

  lemma SwapStep(s: seq<int>, t: seq<int>, p1: int, p2: int, n: int, d: int)
    requires BlocksSwapped(s, t, p1, p2, n, d) && d < n && Rearranged(s, t, p1, p2 + n - 1)
    ensures var u := t[p1 + d := t[p2 + d]][p2 + d := t[p1 + d]];
            BlocksSwapped(s, u, p1, p2, n, d + 1) && Rearranged(s, u, p1, p2 + n - 1)
  {
    RearrangedSwap(s, t, p1, p2 + n - 1, p1 + d, p2 + d);
  }

  /** fvswap: exchanges n entries at p1 with n entries at p2. */
  method SwapBlocks(fmap: array<int>, p1: int, p2: int, n: nat)
    requires 0 <= p1 && p1 + n <= p2 && p2 + n <= fmap.Length
    modifies fmap
    ensures BlocksSwapped(old(fmap[..]), fmap[..], p1, p2, n, n)
    ensures Rearranged(old(fmap[..]), fmap[..], p1, p2 + n - 1)
  {
    ghost var was := fmap[..];
    for d := 0 to n
      invariant BlocksSwapped(was, fmap[..], p1, p2, n, d)
      invariant Rearranged(was, fmap[..], p1, p2 + n - 1)
    {
      ghost var t := fmap[..];
      SwapStep(was, t, p1, p2, n, d);
      fmap[p1 + d], fmap[p2 + d] := fmap[p2 + d], fmap[p1 + d];
      assert fmap[..] == t[p1 + d := t[p2 + d]][p2 + d := t[p1 + d]];
    }
  }

  /** The partition in progress: equal, less, unseen, greater, equal. */
  ghost predicate Parts(f: seq<int>, e: seq<int>, lo: int, hi: int, med: int,
                        ltLo: int, unLo: int, unHi: int, gtHi: int) {
    && InRange(f, |e|) && 0 <= lo <= ltLo <= unLo <= unHi + 1 && unHi <= gtHi <= hi < |f|
    && (forall k :: lo <= k < ltLo ==> e[f[k]] == med)
    && (forall k :: ltLo <= k < unLo ==> e[f[k]] < med)
    && (forall k :: unHi < k <= gtHi ==> e[f[k]] > med)
    && (forall k :: gtHi < k <= hi ==> e[f[k]] == med)
  }

  ghost function Swapped(s: seq<int>, i: int, j: int): (t: seq<int>)
    requires 0 <= i < |s| && 0 <= j < |s|
    ensures |t| == |s|
  {
    s[i := s[j]][j := s[i]]
  }

  method Swap(fmap: array<int>, i: int, j: int)
    requires 0 <= i < fmap.Length && 0 <= j < fmap.Length
    modifies fmap
    ensures fmap[..] == Swapped(old(fmap[..]), i, j)
  {
    fmap[i], fmap[j] := fmap[j], fmap[i];
  }

  /** Skips entries below the median from the left, collecting equal ones at the far left. */
  method ScanUp(fmap: array<int>, eclass: array<int>, lo: int, hi: int, med: int,
                ltLo0: int, unLo0: int, unHi: int, gtHi: int) returns (ltLo: int, unLo: int)
    requires fmap != eclass && Parts(fmap[..], eclass[..], lo, hi, med, ltLo0, unLo0, unHi, gtHi)
    modifies fmap
    ensures Parts(fmap[..], eclass[..], lo, hi, med, ltLo, unLo, unHi, gtHi)
    ensures Rearranged(old(fmap[..]), fmap[..], lo, hi)
    ensures unLo0 <= unLo && (unLo <= unHi ==> eclass[fmap[unLo]] > med)
  {
    ltLo, unLo := ltLo0, unLo0;
    ghost var was := fmap[..];
    while unLo <= unHi && eclass[fmap[unLo]] <= med
      invariant Parts(fmap[..], eclass[..], lo, hi, med, ltLo, unLo, unHi, gtHi)
      invariant Rearranged(was, fmap[..], lo, hi) && unLo0 <= unLo
    {
      if eclass[fmap[unLo]] == med {
        RearrangedSwap(was, fmap[..], lo, hi, unLo, ltLo);
        Swap(fmap, unLo, ltLo);
        ltLo := ltLo + 1;
      }
      unLo := unLo + 1;
    }
  }

  method ScanDown(fmap: array<int>, eclass: array<int>, lo: int, hi: int, med: int,
                  ltLo: int, unLo: int, unHi0: int, gtHi0: int) returns (unHi: int, gtHi: int)
    requires fmap != eclass && Parts(fmap[..], eclass[..], lo, hi, med, ltLo, unLo, unHi0, gtHi0)
    modifies fmap
    ensures Parts(fmap[..], eclass[..], lo, hi, med, ltLo, unLo, unHi, gtHi)
    ensures Rearranged(old(fmap[..]), fmap[..], lo, hi)
    ensures unLo <= unHi ==> fmap[unLo] == old(fmap[unLo])
    ensures unHi <= unHi0 && (unLo <= unHi ==> eclass[fmap[unHi]] < med)
  {
    unHi, gtHi := unHi0, gtHi0;
    ghost var was := fmap[..];
    while unLo <= unHi && eclass[fmap[unHi]] >= med
      invariant Parts(fmap[..], eclass[..], lo, hi, med, ltLo, unLo, unHi, gtHi)
      invariant Rearranged(was, fmap[..], lo, hi) && unHi <= unHi0
      invariant unLo <= unHi ==> fmap[unLo] == was[unLo]
    {
      if eclass[fmap[unHi]] == med {
        RearrangedSwap(was, fmap[..], lo, hi, unHi, gtHi);
        Swap(fmap, unHi, gtHi);
        gtHi := gtHi - 1;
      }
      unHi := unHi - 1;
    }
  }

  /** Exchanging a greater entry on the left with a less one on the right. */
  lemma PartsSwap(was: seq<int>, f: seq<int>, e: seq<int>, lo: int, hi: int, med: int,
                  ltLo: int, unLo: int, unHi: int, gtHi: int)
    requires Parts(f, e, lo, hi, med, ltLo, unLo, unHi, gtHi) && unLo <= unHi
    requires e[f[unLo]] > med > e[f[unHi]] && Rearranged(was, f, lo, hi)
    ensures Parts(Swapped(f, unLo, unHi), e, lo, hi, med, ltLo, unLo + 1, unHi - 1, gtHi)
    ensures Rearranged(was, Swapped(f, unLo, unHi), lo, hi)
  {
    RearrangedSwap(was, f, lo, hi, unLo, unHi);
  }

  /** Partitions lo..hi around med, leaving the equal entries at the two ends. */
  method Partition(fmap: array<int>, eclass: array<int>, lo: int, hi: int, med: int)
    returns (ltLo: int, unLo: int, unHi: int, gtHi: int)
    requires fmap != eclass && 0 <= lo <= hi < fmap.Length && InRange(fmap[..], eclass.Length)
    modifies fmap
    ensures Parts(fmap[..], eclass[..], lo, hi, med, ltLo, unLo, unHi, gtHi) && unHi == unLo - 1
    ensures Rearranged(old(fmap[..]), fmap[..], lo, hi)
  {
    ghost var was := fmap[..];
    unLo, ltLo, unHi, gtHi := lo, lo, hi, hi;
    while true
      invariant Parts(fmap[..], eclass[..], lo, hi, med, ltLo, unLo, unHi, gtHi)
      invariant Rearranged(was, fmap[..], lo, hi)
      decreases unHi - unLo
    {
      ltLo, unLo := ScanUp(fmap, eclass, lo, hi, med, ltLo, unLo, unHi, gtHi);
      unHi, gtHi := ScanDown(fmap, eclass, lo, hi, med, ltLo, unLo, unHi, gtHi);
      if unLo > unHi { break; }
      PartsSwap(was, fmap[..], eclass[..], lo, hi, med, ltLo, unLo, unHi, gtHi);
      Swap(fmap, unLo, unHi);
      unLo := unLo + 1;
      unHi := unHi - 1;
    }
  }

  /** lo..n below med, n+1..m-1 equal to it, m..hi above it. */
  ghost predicate ThreeWay(f: seq<int>, e: seq<int>, lo: int, hi: int, med: int, n: int, m: int) {
    && InRange(f, |e|) && 0 <= lo <= n + 1 < m <= hi + 1 <= |f|
    && (forall k :: lo <= k <= n ==> e[f[k]] < med)
    && (forall k :: n < k < m ==> e[f[k]] == med)
    && (forall k :: m <= k <= hi ==> e[f[k]] > med)
  }

  function Min(a: int, b: int): int { if a < b then a else b }

  /** lo..n below med, n+1..unLo-1 equal, unLo..gtHi above, the rest equal. */
  ghost predicate FourWay(f: seq<int>, e: seq<int>, lo: int, hi: int, med: int, n: int, unLo: int, gtHi: int) {
    && InRange(f, |e|) && 0 <= lo <= n + 1 <= unLo <= gtHi + 1 <= hi + 1 <= |f|
    && (forall k :: lo <= k <= n ==> e[f[k]] < med)
    && (forall k :: n < k < unLo ==> e[f[k]] == med)
    && (forall k :: unLo <= k <= gtHi ==> e[f[k]] > med)
    && (forall k :: gtHi < k <= hi ==> e[f[k]] == med)
  }

  lemma RearrangedTrans(s: seq<int>, t: seq<int>, u: seq<int>, lo: int, hi: int, lo': int, hi': int)
    requires Rearranged(s, t, lo, hi) && Rearranged(t, u, lo', hi') && lo <= lo' && hi' <= hi
    ensures Rearranged(s, u, lo, hi)
  {
  }

  /** Moving the equal entries from the left end to the middle. */
  lemma GatherLeft(f: seq<int>, g: seq<int>, e: seq<int>, lo: int, hi: int, med: int, ltLo: int, unLo: int, gtHi: int)
    requires Parts(f, e, lo, hi, med, ltLo, unLo, unLo - 1, gtHi)
    requires var n := Min(ltLo - lo, unLo - ltLo);
             BlocksSwapped(f, g, lo, unLo - n, n, n) && Rearranged(f, g, lo, unLo - 1)
    ensures FourWay(g, e, lo, hi, med, lo + unLo - ltLo - 1, unLo, gtHi) && Rearranged(f, g, lo, hi)
  {
    RearrangedInRange(f, g, lo, unLo - 1, |e|);
  }

  /** Moving the equal entries from the right end to the middle. */
  lemma GatherRight(was: seq<int>, f: seq<int>, g: seq<int>, e: seq<int>, lo: int, hi: int, med: int, n: int, unLo: int, gtHi: int)
    requires FourWay(f, e, lo, hi, med, n, unLo, gtHi) && Rearranged(was, f, lo, hi)
    requires var m := Min(hi - gtHi, gtHi - unLo + 1);
             BlocksSwapped(f, g, unLo, hi - m + 1, m, m) && Rearranged(f, g, unLo, hi)
    requires n + 1 < hi - (gtHi - unLo + 1) + 1
    ensures ThreeWay(g, e, lo, hi, med, n, hi - (gtHi - unLo + 1) + 1) && Rearranged(was, g, lo, hi)
  {
    RearrangedInRange(f, g, unLo, hi, |e|);
    RearrangedTrans(was, f, g, lo, hi, unLo, hi);
  }

  method GatherFromLeft(fmap: array<int>, eclass: array<int>, lo: int, hi: int, med: int,
                        ltLo: int, unLo: int, gtHi: int)
    requires fmap != eclass && Parts(fmap[..], eclass[..], lo, hi, med, ltLo, unLo, unLo - 1, gtHi)
    modifies fmap
    ensures FourWay(fmap[..], eclass[..], lo, hi, med, lo + unLo - ltLo - 1, unLo, gtHi)
    ensures Rearranged(old(fmap[..]), fmap[..], lo, hi)
  {
    ghost var f := fmap[..];
    var n := Min(ltLo - lo, unLo - ltLo);
    SwapBlocks(fmap, lo, unLo - n, n);
    GatherLeft(f, fmap[..], eclass[..], lo, hi, med, ltLo, unLo, gtHi);
  }

  method GatherFromRight(fmap: array<int>, eclass: array<int>, lo: int, hi: int, med: int,
                         n: int, unLo: int, gtHi: int)
    requires fmap != eclass && FourWay(fmap[..], eclass[..], lo, hi, med, n, unLo, gtHi)
    requires n + 1 < hi - (gtHi - unLo + 1) + 1
    modifies fmap
    ensures ThreeWay(fmap[..], eclass[..], lo, hi, med, n, hi - (gtHi - unLo + 1) + 1)
    ensures Rearranged(old(fmap[..]), fmap[..], lo, hi)
  {
    ghost var f := fmap[..];
    var m := Min(hi - gtHi, gtHi - unLo + 1);
    SwapBlocks(fmap, unLo, hi - m + 1, m);
    GatherRight(f, f, fmap[..], eclass[..], lo, hi, med, n, unLo, gtHi);
  }

  /** A stretch on the stack, possibly empty. */
  datatype Range = Range(lo: int, hi: int) {
    function Size(): int { hi - lo + 1 }
  }

  ghost predicate StackInside(st: seq<Range>, lo: int, hi: int) {
    forall k :: 0 <= k < |st| ==> lo <= st[k].lo <= st[k].hi + 1 <= hi + 1
  }

  ghost predicate StackDisjoint(st: seq<Range>) {
    forall j, k :: 0 <= j < k < |st| ==> st[j].hi < st[k].lo || st[k].hi < st[j].lo
  }

  /** Two positions lie in one stretch that is still to be sorted. */
  ghost predicate Pending(st: seq<Range>, i: int, j: int) {
    exists k :: 0 <= k < |st| && st[k].lo <= i && j <= st[k].hi
  }

  /** Everything is in order except inside the stretches on the stack. */
  ghost predicate SortedExcept(f: seq<int>, e: seq<int>, lo: int, hi: int, st: seq<Range>)
    requires InRange(f, |e|)
  {
    forall i, j :: 0 <= lo <= i < j <= hi < |f| && !Pending(st, i, j) ==> e[f[i]] <= e[f[j]]
  }

  /** Sorting, or partitioning, the top stretch leaves the order outside it intact. */
  lemma OutsideKept(f: seq<int>, g: seq<int>, e: seq<int>, lo: int, hi: int, st: seq<Range>, r: Range, i: int, j: int)
    requires InRange(f, |e|) && InRange(g, |e|) && 0 <= lo && hi < |f|
    requires StackInside(st + [r], lo, hi) && StackDisjoint(st + [r])
    requires SortedExcept(f, e, lo, hi, st + [r]) && Rearranged(f, g, r.lo, r.hi)
    requires lo <= i < j <= hi && !Pending(st, i, j) && !(r.lo <= i && j <= r.hi)
    ensures e[g[i]] <= e[g[j]]
  {
    var top := |st|;
    assert (st + [r])[top] == r;
    var i', j' := i, j;
    if r.lo <= i <= r.hi { i' := RearrangedFrom(f, g, r.lo, r.hi, i); }
    if r.lo <= j <= r.hi { j' := RearrangedFrom(f, g, r.lo, r.hi, j); }
    forall k | 0 <= k < |st + [r]| ensures !((st + [r])[k].lo <= i' && j' <= (st + [r])[k].hi) {
      assert k < top ==> (st + [r])[k] == st[k];
    }
  }

  lemma TopSorted(f: seq<int>, g: seq<int>, e: seq<int>, lo: int, hi: int, st: seq<Range>, r: Range)
    requires InRange(f, |e|) && InRange(g, |e|) && 0 <= lo && hi < |f|
    requires StackInside(st + [r], lo, hi) && StackDisjoint(st + [r])
    requires SortedExcept(f, e, lo, hi, st + [r]) && Rearranged(f, g, r.lo, r.hi)
    requires SortedBy(g, e, r.lo, r.hi)
    ensures SortedExcept(g, e, lo, hi, st)
  {
    assert (st + [r])[|st|] == r;
    forall i, j | lo <= i < j <= hi && !Pending(st, i, j) ensures e[g[i]] <= e[g[j]] {
      if !(r.lo <= i && j <= r.hi) {
        OutsideKept(f, g, e, lo, hi, st, r, i, j);
      }
    }
  }

  lemma TopSplit(f: seq<int>, g: seq<int>, e: seq<int>, lo: int, hi: int, st: seq<Range>, r: Range,
                 med: int, n: int, m: int, st': seq<Range>)
    requires InRange(f, |e|) && InRange(g, |e|) && 0 <= lo && hi < |f|
    requires StackInside(st + [r], lo, hi) && StackDisjoint(st + [r])
    requires SortedExcept(f, e, lo, hi, st + [r]) && Rearranged(f, g, r.lo, r.hi)
    requires ThreeWay(g, e, r.lo, r.hi, med, n, m)
    requires st' == st + [Range(r.lo, n), Range(m, r.hi)] || st' == st + [Range(m, r.hi), Range(r.lo, n)]
    ensures SortedExcept(g, e, lo, hi, st')
    ensures StackInside(st', lo, hi) && StackDisjoint(st')
  {
    assert (st + [r])[|st|] == r;
    assert forall k :: 0 <= k < |st| ==> (st + [r])[k] == st[k] && st'[k] == st[k];
    forall i, j | lo <= i < j <= hi && !Pending(st', i, j) ensures e[g[i]] <= e[g[j]] {
      assert !Pending(st, i, j);
      if r.lo <= i && j <= r.hi {
        assert st'[|st|] == Range(r.lo, n) || st'[|st| + 1] == Range(r.lo, n);
        assert st'[|st|] == Range(m, r.hi) || st'[|st| + 1] == Range(m, r.hi);
      } else {
        OutsideKept(f, g, e, lo, hi, st, r, i, j);
      }
    }
  }

  /** The chosen median is still somewhere in the stretch, so an end is not empty. */
  lemma MedianPresent(f: seq<int>, g: seq<int>, e: seq<int>, lo: int, hi: int, p: int,
                      ltLo: int, unLo: int, gtHi: int)
    requires InRange(f, |e|) && 0 <= lo <= p <= hi < |f| && Rearranged(g, f, lo, hi)
    requires Parts(g, e, lo, hi, e[f[p]], ltLo, unLo, unLo - 1, gtHi)
    ensures lo < ltLo || gtHi < hi
  {
    var k := RearrangedFrom(g, f, lo, hi, p);
  }

  /** Partitions a stretch of at least ten entries by the entry at p. Either all entries are
      equal, or two smaller stretches remain. */
  method SplitTop(fmap: array<int>, eclass: array<int>, lo: int, hi: int, p: int)
    returns (split: bool, n: int, m: int, ghost med: int)
    requires fmap != eclass && 0 <= lo <= p <= hi < fmap.Length && InRange(fmap[..], eclass.Length)
    modifies fmap
    ensures Rearranged(old(fmap[..]), fmap[..], lo, hi) && InRange(fmap[..], eclass.Length)
    ensures if split then ThreeWay(fmap[..], eclass[..], lo, hi, med, n, m) && (lo <= n || m <= hi)
            else SortedBy(fmap[..], eclass[..], lo, hi)
  {
    ghost var f := fmap[..];
    var pivot := eclass[fmap[p]];
    med := pivot;
    var ltLo, unLo, unHi, gtHi := Partition(fmap, eclass, lo, hi, pivot);
    ghost var g := fmap[..];
    if gtHi < ltLo { return false, lo, hi, med; }
    MedianPresent(f, g, eclass[..], lo, hi, p, ltLo, unLo, gtHi);
    GatherFromLeft(fmap, eclass, lo, hi, pivot, ltLo, unLo, gtHi);
    ghost var h := fmap[..];
    n := lo + unLo - ltLo - 1;
    GatherFromRight(fmap, eclass, lo, hi, pivot, n, unLo, gtHi);
    m := hi - (gtHi - unHi) + 1;
    split := true;
    RearrangedTrans(f, g, h, lo, hi, lo, hi);
    RearrangedTrans(f, h, fmap[..], lo, hi, lo, hi);
  }

  /** A short stretch is sorted by insertion, a longer one split by a pseudo-random median. */
  method SortOrSplit(fmap: array<int>, eclass: array<int>, lo: int, hi: int, r: nat)
    returns (done: bool, n: int, m: int, r': nat, ghost med: int)
    requires fmap != eclass && 0 <= lo && hi < fmap.Length && InRange(fmap[..], eclass.Length)
    modifies fmap
    ensures Rearranged(old(fmap[..]), fmap[..], lo, hi) && InRange(fmap[..], eclass.Length)
    ensures if done then SortedBy(fmap[..], eclass[..], lo, hi)
            else ThreeWay(fmap[..], eclass[..], lo, hi, med, n, m) && (lo <= n || m <= hi)
  {
    if hi - lo < 10 {
      FallbackSimpleSort(fmap, eclass, lo, hi);
      return true, 0, 0, r, 0;
    }
    r' := (r * 7621 + 1) % 32768;
    var r3 := r' % 3;
    var split;
    split, n, m, med := SplitTop(fmap, eclass, lo, hi, if r3 == 0 then lo else if r3 == 1 then (lo + hi) / 2 else hi);
    done := !split;
  }

  /** The total size of the stretches. */
  ghost function Work(st: seq<Range>): int {
    if |st| == 0 then 0 else Work(st[..|st| - 1]) + st[|st| - 1].Size()
  }

  lemma WorkPush(st: seq<Range>, r: Range)
    ensures Work(st + [r]) == Work(st) + r.Size()
  {
    assert (st + [r])[..|st|] == st;
  }

  /** With above entries on top of it, each stretch is at least as large as everything above
      it: the larger part of a split always goes below the smaller one. */
  ghost predicate Balanced(st: seq<Range>, above: int) {
    |st| > 0 ==>
      var z := st[|st| - 1].Size();
      z >= 1 && z >= above && Balanced(st[..|st| - 1], above + z)
  }

  lemma {:induction false} BalancedLess(st: seq<Range>, above: int, less: int)
    requires Balanced(st, above) && less <= above
    ensures Balanced(st, less)
  {
    if |st| > 0 {
      BalancedLess(st[..|st| - 1], above + st[|st| - 1].Size(), less + st[|st| - 1].Size());
    }
  }

  lemma BalancedPush(st: seq<Range>, above: int, big: Range, small: Range)
    requires Balanced(st, above) && small.Size() + big.Size() <= above
    requires 1 <= big.Size() && small.Size() <= big.Size()
    ensures Balanced(st + [big], small.Size())
  {
    BalancedLess(st, above, small.Size() + big.Size());
    assert (st + [big])[..|st|] == st;
  }

  lemma BalancedPop(st: seq<Range>, above: int)
    requires Balanced(st, above) && |st| > 0 && above >= 0
    ensures Balanced(st[..|st| - 1], st[|st| - 1].Size()) && st[|st| - 1].Size() >= 1
  {
    BalancedLess(st[..|st| - 1], above + st[|st| - 1].Size(), st[|st| - 1].Size());
  }

  /** A balanced stack doubles with every stretch. */
  lemma {:induction false} BalancedWork(st: seq<Range>, above: int, j: nat)
    requires Balanced(st, above) && above >= Pow2(j)
    ensures Work(st) + above >= Pow2(j + |st|)
    decreases |st|
  {
    if |st| > 0 {
      BalancedWork(st[..|st| - 1], above + st[|st| - 1].Size(), j + 1);
      assert j + 1 + (|st| - 1) == j + |st|;
    }
  }

  lemma {:induction false} BalancedNonnegative(st: seq<Range>, above: int)
    requires Balanced(st, above)
    ensures Work(st) >= 0
  {
    if |st| > 0 { BalancedNonnegative(st[..|st| - 1], above + st[|st| - 1].Size()); }
  }

  /** The stack never needs more than 22 of its 100 places. */
  lemma DepthBound(st: seq<Range>, top: Range)
    requires Balanced(st, top.Size()) && top.Size() >= 0 && Work(st) + top.Size() <= 900000
    ensures |st| < 21
  {
    if |st| > 0 {
      var z := st[|st| - 1].Size();
      assert Pow2(0) == 1;
      BalancedWork(st[..|st| - 1], top.Size() + z, 0);
      if |st| >= 21 {
        Pow2Monotone(20, |st| - 1);
        Pow2Table();
      }
    }
  }

  /** The loop invariant of the sort: st below top on the stack. */
  ghost predicate QSortState(f: seq<int>, e: seq<int>, lo: int, hi: int, st: seq<Range>, top: Range) {
    && InRange(f, |e|) && 0 <= lo <= hi < |f| <= 900000
    && StackInside(st + [top], lo, hi) && StackDisjoint(st + [top])
    && SortedExcept(f, e, lo, hi, st + [top])
    && Balanced(st, top.Size()) && top.Size() >= 0 && 0 <= Work(st) && Work(st) + top.Size() <= hi - lo + 1
  }

  lemma InitialState(f: seq<int>, e: seq<int>, lo: int, hi: int)
    requires InRange(f, |e|) && 0 <= lo <= hi < |f| <= 900000
    ensures QSortState(f, e, lo, hi, [], Range(lo, hi))
  {
    var st := [] + [Range(lo, hi)];
    assert st[0] == Range(lo, hi);
    assert forall i, j :: lo <= i < j <= hi ==> Pending(st, i, j);
  }

  lemma PopState(f: seq<int>, g: seq<int>, e: seq<int>, lo: int, hi: int, st: seq<Range>, top: Range)
    requires QSortState(f, e, lo, hi, st, top) && InRange(g, |e|)
    requires Rearranged(f, g, top.lo, top.hi) && SortedBy(g, e, top.lo, top.hi)
    ensures |st| == 0 ==> SortedBy(g, e, lo, hi)
    ensures |st| > 0 ==> QSortState(g, e, lo, hi, st[..|st| - 1], st[|st| - 1])
  {
    TopSorted(f, g, e, lo, hi, st, top);
    if |st| > 0 {
      var init, z := st[..|st| - 1], st[|st| - 1];
      assert init + [z] == st;
      assert forall k :: 0 <= k < |st| ==> (st + [top])[k] == st[k];
      BalancedPop(st, top.Size());
      BalancedNonnegative(init, z.Size());
    }
  }

  lemma PushState(f: seq<int>, g: seq<int>, e: seq<int>, lo: int, hi: int, st: seq<Range>, top: Range,
                  med: int, n: int, m: int, big: Range, small: Range)
    requires QSortState(f, e, lo, hi, st, top) && InRange(g, |e|)
    requires Rearranged(f, g, top.lo, top.hi) && ThreeWay(g, e, top.lo, top.hi, med, n, m)
    requires top.lo <= n || m <= top.hi
    requires {big, small} == {Range(top.lo, n), Range(m, top.hi)} && small.Size() <= big.Size()
    ensures QSortState(g, e, lo, hi, st + [big], small)
    ensures Work(st + [big]) + small.Size() < Work(st) + top.Size()
  {
    assert st + [big] + [small] == st + [big, small];
    TopSplit(f, g, e, lo, hi, st, top, med, n, m, st + [big, small]);
    WorkPush(st, big);
    BalancedPush(st, top.Size(), big, small);
  }

  /** One round: takes the top stretch, and returns the two parts to push if it was split. */
  method Round(fmap: array<int>, eclass: array<int>, loSt: int, hiSt: int, r: nat, ghost st: seq<Range>, top: Range)
    returns (done: bool, big: Range, small: Range, r': nat)
    requires fmap != eclass && QSortState(fmap[..], eclass[..], loSt, hiSt, st, top)
    modifies fmap
    ensures Rearranged(old(fmap[..]), fmap[..], loSt, hiSt) && InRange(fmap[..], eclass.Length)
    ensures done && |st| == 0 ==> SortedBy(fmap[..], eclass[..], loSt, hiSt)
    ensures done && |st| > 0 ==>
              QSortState(fmap[..], eclass[..], loSt, hiSt, st[..|st| - 1], st[|st| - 1])
    ensures !done ==> QSortState(fmap[..], eclass[..], loSt, hiSt, st + [big], small)
    ensures !done ==> Work(st + [big]) + small.Size() < Work(st) + top.Size()
  {
    ghost var f := fmap[..];
    var lo, hi := top.lo, top.hi;
    assert (st + [top])[|st|] == top;
    ghost var med;
    var n, m;
    done, n, m, r', med := SortOrSplit(fmap, eclass, lo, hi, r);
    RearrangedTrans(f, f, fmap[..], loSt, hiSt, lo, hi);
    if done {
      big, small := top, top;
      PopState(f, fmap[..], eclass[..], loSt, hiSt, st, top);
    } else {
      big, small := Range(lo, n), Range(m, hi);
      if n - lo <= hi - m { big, small := small, big; }
      PushState(f, fmap[..], eclass[..], loSt, hiSt, st, top, med, n, m, big, small);
    }
  }

  /** Sorts loSt..hiSt by class. The stack check (assertion 1004 of the source) never fires on
      a block of legal size. */
  method FallbackQSort3(fmap: array<int>, eclass: array<int>, loSt: int, hiSt: int)
    requires fmap != eclass && 0 <= loSt <= hiSt < fmap.Length <= 900000
    requires InRange(fmap[..], eclass.Length)
    modifies fmap
    ensures Rearranged(old(fmap[..]), fmap[..], loSt, hiSt) && InRange(fmap[..], eclass.Length)
    ensures SortedBy(fmap[..], eclass[..], loSt, hiSt)
  {
    ghost var f0 := fmap[..];
    var stack := new Range[100];
    var r, sp := 0, 1;
    stack[0] := Range(loSt, hiSt);
    ghost var st: seq<Range>, top := [], stack[0];
    InitialState(fmap[..], eclass[..], loSt, hiSt);
    while sp > 0
      invariant fresh(stack) && stack.Length == 100 && InRange(fmap[..], eclass.Length)
      invariant Rearranged(f0, fmap[..], loSt, hiSt)
      invariant sp == 0 ==> SortedBy(fmap[..], eclass[..], loSt, hiSt)
      invariant sp > 0 ==> sp == |st| + 1 <= 100 && stack[sp - 1] == top
      invariant sp > 0 ==> forall k :: 0 <= k < |st| ==> stack[k] == st[k]
      invariant sp > 0 ==> QSortState(fmap[..], eclass[..], loSt, hiSt, st, top)
      decreases if sp > 0 then 2 * (Work(st) + top.Size()) + sp else 0
    {
      DepthBound(st, top);
      assert sp < 99;
      ghost var f := fmap[..];
      var done, big, small;
      sp := sp - 1;
      done, big, small, r := Round(fmap, eclass, loSt, hiSt, r, st, stack[sp]);
      RearrangedTrans(f0, f, fmap[..], loSt, hiSt, loSt, hiSt);
      if !done {
        stack[sp] := big;
        stack[sp + 1] := small;
        sp := sp + 2;
        st, top := st + [big], small;
      } else if sp > 0 {
        st, top := st[..sp - 1], st[sp - 1];
      }
    }
  }

}
