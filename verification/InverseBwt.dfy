/** The Burrows-Wheeler transform of a block and the two ways the decoder undoes it:
    the T^(-1) vector packed over the last column (FAST), and T packed into 20-bit slots and
    reversed in place along the cycle of the start row (SMALL). */
module InverseBwt {
  import opened Sequences
  import opened Rotations

  /** The position cyclically before p. */
  function Pred(p: int, n: int): int { if p == 0 then n - 1 else p - 1 }

  /** The last characters of the rotations, in sorted order. */
  function LastColumn(b: seq<Byte>, ptr: seq<int>): (l: seq<Byte>)
    requires |ptr| == |b| && InRange(ptr, |b|)
    ensures |l| == |b| && forall k :: 0 <= k < |b| ==> l[k] == b[Pred(ptr[k], |b|)]
  {
    seq(|b|, k requires 0 <= k < |b| => b[Pred(ptr[k], |b|)])
  }

  /** The row of the sorted matrix at which the i-th character of the last column stands
      first: characters smaller than it, then equal characters above it. */
  function Row(l: seq<int>, i: int): nat
    requires 0 <= i < |l| && l[i] >= 0
  {
    Below(l, l[i]) + Count(l[..i], l[i])
  }

  function Rows(l: seq<Byte>): (r: seq<int>)
    ensures |r| == |l| && forall i :: 0 <= i < |l| ==> r[i] == Row(l, i)
  {
    seq(|l|, i requires 0 <= i < |l| => Row(l, i))
  }

  /** Row i lies in the bucket of its character. */
  lemma RowBucket(l: seq<Byte>, i: int)
    requires 0 <= i < |l|
    ensures Below(l, l[i]) <= Row(l, i) < Below(l, l[i] as int + 1) <= |l|
  {
    CountNext(l, i, l[i]);
    CountMonotone(l, i + 1, |l|, l[i]);
    assert l[..|l|] == l;
    BelowMonotone(l, l[i] as int + 1, 256);
    BelowAll(l, 256);
  }

  /** Rows are ordered by character, then by position. */
  lemma RowOrder(l: seq<Byte>, i: int, j: int)
    requires 0 <= i < |l| && 0 <= j < |l|
    requires l[i] < l[j] || (l[i] == l[j] && i < j)
    ensures Row(l, i) < Row(l, j)
  {
    if l[i] < l[j] {
      RowBucket(l, i);
      BelowMonotone(l, l[i] as int + 1, l[j]);
    } else {
      CountNext(l, i, l[i]);
      CountMonotone(l, i + 1, j, l[i]);
    }
  }

  lemma RowsArePermutation(l: seq<Byte>)
    ensures IsPermutation(Rows(l))
  {
    var r := Rows(l);
    forall i | 0 <= i < |l| ensures 0 <= r[i] < |l| { RowBucket(l, i); }
    forall i, j | 0 <= i < j < |l| ensures r[i] != r[j] {
      if l[i] <= l[j] { RowOrder(l, i, j); } else { RowOrder(l, j, i); }
    }
  }

  /** t sends each row to the row of the rotation one character further on. */
  ghost predicate IsInverse(l: seq<Byte>, t: seq<int>) {
    && |t| == |l| && InRange(t, |l|)
    && forall i :: 0 <= i < |l| ==> Row(l, i) < |l| && t[Row(l, i)] == i
  }

  lemma InverseBothWays(l: seq<Byte>, t: seq<int>, k: int)
    requires IsInverse(l, t) && 0 <= k < |l|
    ensures Row(l, t[k]) == k
  {
    RowsArePermutation(l);
    PermutationHits(Rows(l), k);
    var i :| 0 <= i < |l| && Rows(l)[i] == k;
  }

  lemma InverseOrder(l: seq<Byte>, t: seq<int>, k: int, k': int)
    requires IsInverse(l, t) && 0 <= k < k' < |l|
    ensures l[t[k]] < l[t[k']] || (l[t[k]] == l[t[k']] && t[k] < t[k'])
  {
    InverseBothWays(l, t, k);
    InverseBothWays(l, t, k');
    if l[t[k']] < l[t[k]] || (l[t[k]] == l[t[k']] && t[k'] < t[k]) {
      RowOrder(l, t[k'], t[k]);
    }
  }

  /** The rotation that starts one character before the rotation in row t[k]. */
  ghost function Before(ptr: seq<int>, t: seq<int>): (r: seq<int>)
    requires |t| == |ptr| && InRange(t, |ptr|)
    ensures |r| == |ptr| && forall k :: 0 <= k < |r| ==> r[k] == Pred(ptr[t[k]], |ptr|)
  {
    seq(|ptr|, k requires 0 <= k < |ptr| => Pred(ptr[t[k]], |ptr|))
  }

  lemma BeforeIsPermutation(b: seq<Byte>, ptr: seq<int>, t: seq<int>)
    requires |ptr| == |b| && IsPermutation(ptr) && IsInverse(LastColumn(b, ptr), t)
    ensures IsPermutation(Before(ptr, t))
  {
    var r := Before(ptr, t);
    forall i, j | 0 <= i < j < |r| ensures r[i] != r[j] {
      InverseBothWays(LastColumn(b, ptr), t, i);
      InverseBothWays(LastColumn(b, ptr), t, j);
      assert ptr[t[i]] != ptr[t[j]] by {
        if t[i] < t[j] { } else { assert t[j] < t[i]; }
      }
    }
  }

  lemma KeyOne(b: seq<Byte>, p: nat)
    requires p < |b|
    ensures Key(b, p, 1) == b[p]
  {
    assert Key(b, p, 0) == 0;
    assert p + 1 - 1 == p;
  }

  /** A key of n characters is its first character, then the key of the rest. */
  lemma KeyHead(b: seq<Byte>, p: int, q: int, n: nat)
    requires 0 <= p < |b| && 0 <= q < |b| && n + 1 == |b|
    requires b[p] < b[q] || (b[p] == b[q] && Key(b, p + 1, n) <= Key(b, q + 1, n))
    ensures Key(b, p, 1 + n) <= Key(b, q, 1 + n)
  {
    KeyOne(b, p);
    KeyOne(b, q);
    KeySplit(b, q, p, 1, n);
  }

  /** Stepping one back from the rows in t order lists the rotations in order again. */
  lemma BeforeIsSorted(b: seq<Byte>, ptr: seq<int>, t: seq<int>)
    requires |b| > 0 && |ptr| == |b| && IsPermutation(ptr) && SortedByKey(b, ptr, |b|)
    requires IsInverse(LastColumn(b, ptr), t)
    ensures SortedByKey(b, Before(ptr, t), |b|)
  {
    var n, r, l := |b|, Before(ptr, t), LastColumn(b, ptr);
    forall i, j | 0 <= i < j < n ensures Key(b, r[i], n) <= Key(b, r[j], n) {
      InverseOrder(l, t, i, j);
      if l[t[i]] == l[t[j]] {
        PredNext(b, ptr[t[i]], n - 1);
        PredNext(b, ptr[t[j]], n - 1);
        KeyShorter(b, ptr[t[i]], ptr[t[j]], n - 1, n);
      }
      KeyHead(b, r[i], r[j], n - 1);
    }
  }

  lemma PredNext(b: seq<Byte>, p: int, m: nat)
    requires 0 <= p < |b|
    ensures Key(b, Pred(p, |b|) + 1, m) == Key(b, p, m)
  {
    if p == 0 {
      KeyCyclic(b, 0, m);
    }
  }

  ghost function Keys(b: seq<Byte>): (r: seq<int>)
    ensures |r| == |b| && forall i :: 0 <= i < |b| ==> r[i] == Key(b, i, |b|)
  {
    seq(|b|, i requires 0 <= i < |b| => Key(b, i, |b|))
  }

  /** Two sorted listings of the rotations agree on the strings they list. */
  lemma SortedListingsAgree(b: seq<Byte>, r: seq<int>, ptr: seq<int>, k: int)
    requires 0 <= k < |b| == |r| == |ptr| && IsPermutation(ptr) && IsPermutation(r)
    requires SortedByKey(b, ptr, |b|) && SortedByKey(b, r, |b|)
    ensures Key(b, r[k], |b|) == Key(b, ptr[k], |b|)
  {
    PermutationMultiset(r);
    PermutationMultiset(ptr);
    GatherMultiset(Keys(b), r, ptr);
    var x, y := Gather(Keys(b), r), Gather(Keys(b), ptr);
    assert Ascending(x);
    assert Ascending(y);
    SortedUnique(x, y);
    assert x[k] == y[k];
  }

  /** Row t[k] holds row k rotated by one character, ties included. */
  lemma StepsOneCharacter(b: seq<Byte>, ptr: seq<int>, t: seq<int>, k: int)
    requires 0 <= k < |b| && |ptr| == |b| && IsPermutation(ptr) && SortedByKey(b, ptr, |b|)
    requires IsInverse(LastColumn(b, ptr), t)
    ensures Key(b, Pred(ptr[t[k]], |b|), |b|) == Key(b, ptr[k], |b|)
  {
    BeforeIsPermutation(b, ptr, t);
    BeforeIsSorted(b, ptr, t);
    SortedListingsAgree(b, Before(ptr, t), ptr, k);
  }

  /** m steps of t from row o. */
  ghost function Walk(t: seq<int>, o: int, m: nat): (r: int)
    requires InRange(t, |t|) && 0 <= o < |t|
    ensures 0 <= r < |t|
  {
    if m == 0 then o else t[Walk(t, o, m - 1)]
  }

  /** Symbol k that a decoder emits when it walks t from row o. */
  ghost function Symbol(l: seq<Byte>, t: seq<int>, o: int, k: nat): Byte
    requires |t| == |l| && InRange(t, |t|) && 0 <= o < |l|
  {
    l[Walk(t, o, k + 1)]
  }

  /** As many symbols as the block is long. */
  ghost function Symbols(l: seq<Byte>, t: seq<int>, o: int): (r: seq<Byte>)
    requires |t| == |l| && InRange(t, |t|) && 0 <= o < |l|
    ensures |r| == |l| && forall k :: 0 <= k < |l| ==> r[k] == Symbol(l, t, o, k)
  {
    seq(|l|, k requires 0 <= k < |l| => Symbol(l, t, o, k))
  }

  lemma KeyAdvance(b: seq<Byte>, p: nat, q: nat)
    requires |b| > 0 && Key(b, p, |b|) == Key(b, q, |b|)
    ensures At(b, p) == At(b, q)
    ensures Key(b, p + 1, |b|) == Key(b, q + 1, |b|)
  {
    KeyShorter(b, p, q, 1, |b|);
    assert Key(b, p, 0) == 0 && Key(b, q, 0) == 0;
    KeySplit(b, p, q, 1, |b| - 1);
    assert 1 + (|b| - 1) == |b|;
    assert p + 1 + |b| - 1 == p + |b| && q + 1 + |b| - 1 == q + |b|;
  }

  /** After m steps from the row of the block itself, the walk stands on rotation m. */
  lemma {:induction false} WalkTracksBlock(b: seq<Byte>, ptr: seq<int>, t: seq<int>, o: int, m: nat)
    requires |b| > 0 && SortsRotations(b, ptr) && 0 <= o < |b| && ptr[o] == 0
    requires IsInverse(LastColumn(b, ptr), t)
    ensures Key(b, ptr[Walk(t, o, m)], |b|) == Key(b, m, |b|)
    ensures LastColumn(b, ptr)[Walk(t, o, m + 1)] == At(b, m)
    decreases m
  {
    SortedByKeyIsSorted(b, ptr);
    if m > 0 {
      WalkTracksBlock(b, ptr, t, o, m - 1);
      NextRow(b, ptr, t, Walk(t, o, m - 1), m - 1);
    }
    NextRow(b, ptr, t, Walk(t, o, m), m);
  }

  lemma NextRow(b: seq<Byte>, ptr: seq<int>, t: seq<int>, k: int, m: nat)
    requires 0 <= k < |b| && |ptr| == |b| && IsPermutation(ptr) && SortedByKey(b, ptr, |b|)
    requires IsInverse(LastColumn(b, ptr), t)
    requires Key(b, ptr[k], |b|) == Key(b, m, |b|)
    ensures Key(b, ptr[t[k]], |b|) == Key(b, m + 1, |b|)
    ensures LastColumn(b, ptr)[t[k]] == At(b, m)
  {
    var p := Pred(ptr[t[k]], |b|);
    StepsOneCharacter(b, ptr, t, k);
    KeyAdvance(b, p, m);
    PredNext(b, ptr[t[k]], |b|);
  }

  /** The symbols a decoder emits for a sorted block are the block. */
  lemma InverseTransform(b: seq<Byte>, ptr: seq<int>, t: seq<int>, o: int)
    requires |b| > 0 && SortsRotations(b, ptr) && 0 <= o < |b| && ptr[o] == 0
    requires IsInverse(LastColumn(b, ptr), t)
    ensures Symbols(LastColumn(b, ptr), t, o) == b
  {
    forall k | 0 <= k < |b| ensures Symbol(LastColumn(b, ptr), t, o, k) == b[k] {
      WalkTracksBlock(b, ptr, t, o, k);
    }
  }
}
