/** The first and last passes of fallbackSort: the radix sort on one character that starts the
    bucket refinement, and the rebuilding of the block from the sorted order. The block's bytes
    share storage with the class words, which destroy them. */
module FallbackBuckets {
  import opened Sequences
  import opened Rotations
  import opened InverseBwt

  /** Byte r of a 32-bit word. */
  function ByteOf(w: int, r: int): Byte {
    if r == 0 then w % 0x100
    else if r == 1 then w / 0x100 % 0x100
    else if r == 2 then w / 0x10000 % 0x100
    else w / 0x1000000 % 0x100
  }

  function Word(b0: Byte, b1: Byte, b2: Byte, b3: Byte): int {
    b0 as int + b1 as int * 0x100 + b2 as int * 0x10000 + b3 as int * 0x1000000
  }

  /** The word with byte r replaced. */
  function WithByte(w: int, r: int, c: Byte): int {
    Word(if r == 0 then c else ByteOf(w, 0), if r == 1 then c else ByteOf(w, 1),
         if r == 2 then c else ByteOf(w, 2), if r == 3 then c else ByteOf(w, 3))
  }

  ghost predicate IsWord(w: int) { 0 <= w < 0x100000000 }

  lemma WordBytes(b0: Byte, b1: Byte, b2: Byte, b3: Byte)
    ensures var w := Word(b0, b1, b2, b3);
            IsWord(w) && ByteOf(w, 0) == b0 && ByteOf(w, 1) == b1 && ByteOf(w, 2) == b2 && ByteOf(w, 3) == b3
  {
    var w := Word(b0, b1, b2, b3);
    assert w / 0x1000000 == b3;
    assert w / 0x10000 == b2 as int + b3 as int * 0x100;
    assert w / 0x100 == b1 as int + b2 as int * 0x100 + b3 as int * 0x10000;
  }

  lemma ByteOfWith(w: int, r: int, r': int, c: Byte)
    requires 0 <= r < 4 && 0 <= r' < 4
    ensures IsWord(WithByte(w, r, c))
    ensures ByteOf(WithByte(w, r, c), r') == if r == r' then c else ByteOf(w, r')
  {
    WordBytes(if r == 0 then c else ByteOf(w, 0), if r == 1 then c else ByteOf(w, 1),
              if r == 2 then c else ByteOf(w, 2), if r == 3 then c else ByteOf(w, 3));
  }

  /** The first n bytes of the words. */
  ghost function Bytes(e: seq<int>, n: nat): (b: seq<Byte>)
    requires n <= |e|
    ensures |b| == n && forall i :: 0 <= i < n ==> b[i] == ByteOf(e[i / 4], i % 4)
  {
    seq(n, i requires 0 <= i < n => ByteOf(e[i / 4], i % 4))
  }

  /** Where the radix pass puts position i: its bucket is filled from the top. */
  ghost function Slot(b: seq<Byte>, i: int): int
    requires 0 <= i < |b|
  {
    Below(b, b[i] as int + 1) - 1 - Count(b[..i], b[i])
  }

  ghost function Slots(b: seq<Byte>): (s: seq<int>)
    ensures |s| == |b| && forall i :: 0 <= i < |b| ==> s[i] == Slot(b, i)
  {
    seq(|b|, i requires 0 <= i < |b| => Slot(b, i))
  }

  lemma SlotBucket(b: seq<Byte>, i: int)
    requires 0 <= i < |b|
    ensures Below(b, b[i]) <= Slot(b, i) < Below(b, b[i] as int + 1) <= |b|
  {
    RowBucket(b, i);
  }

  lemma SlotsArePermutation(b: seq<Byte>)
    ensures IsPermutation(Slots(b))
  {
    forall i | 0 <= i < |b| ensures 0 <= Slots(b)[i] < |b| { SlotBucket(b, i); }
    forall i, j | 0 <= i < j < |b| ensures Slots(b)[i] != Slots(b)[j] {
      SlotBucket(b, i);
      SlotBucket(b, j);
      if b[i] < b[j] {
        BelowMonotone(b, b[i] as int + 1, b[j]);
      } else if b[j] < b[i] {
        BelowMonotone(b, b[j] as int + 1, b[i]);
      } else {
        CountNext(b, i, b[i]);
        CountMonotone(b, i + 1, j, b[i]);
      }
    }
  }

  /** f lists all positions, bucket by bucket. */
  ghost predicate Bucketed(b: seq<Byte>, f: seq<int>) {
    && |f| == |b| && IsPermutation(f)
    && forall k :: 0 <= k < |f| ==> Below(b, b[f[k]]) <= k < Below(b, b[f[k]] as int + 1)
  }

  /** Buckets do not overlap. */
  lemma BucketOrder(b: seq<Byte>, c: nat, c': nat, k: int, k': int)
    requires Below(b, c) <= k < Below(b, c + 1) && Below(b, c') <= k' < Below(b, c' + 1)
    ensures k <= k' ==> c <= c'
  {
    if c' < c { BelowMonotone(b, c' + 1, c); }
  }

  /** Inverting the slots gives the bucketed order. */
  lemma FilledIsBucketed(b: seq<Byte>, f: seq<int>)
    requires |f| == |b| && forall i :: 0 <= i < |b| ==> 0 <= Slots(b)[i] < |b| && f[Slots(b)[i]] == i
    ensures Bucketed(b, f)
  {
    SlotsArePermutation(b);
    forall k | 0 <= k < |f| ensures 0 <= f[k] < |b| && Slots(b)[f[k]] == k {
      PermutationHits(Slots(b), k);
      var i :| 0 <= i < |b| && Slots(b)[i] == k;
    }
    forall i, j | 0 <= i < j < |f| ensures f[i] != f[j] {
      assert Slots(b)[f[i]] == i && Slots(b)[f[j]] == j;
    }
    forall k | 0 <= k < |f| ensures Below(b, b[f[k]]) <= k < Below(b, b[f[k]] as int + 1) {
      assert Slots(b)[f[k]] == k;
      SlotBucket(b, f[k]);
    }
  }

  /** The radix pass after i positions. */
  ghost predicate FilledTo(b: seq<Byte>, f: seq<int>, ftab: seq<int>, i: int) {
    && |f| == |b| && |ftab| == 257 && 0 <= i <= |b|
    && (forall c: nat :: c < 256 ==> ftab[c] == Below(b, c + 1) - Count(b[..i], c))
    && (forall j :: 0 <= j < i ==> 0 <= Slots(b)[j] < |b| && f[Slots(b)[j]] == j)
  }

  lemma FillStep(b: seq<Byte>, f: seq<int>, ftab: seq<int>, i: int)
    requires FilledTo(b, f, ftab, i) && i < |b|
    ensures var k := ftab[b[i]] - 1;
            0 <= k < |b| && FilledTo(b, f[k := i], ftab[b[i] := k], i + 1)
  {
    var k := ftab[b[i]] - 1;
    SlotsArePermutation(b);
    assert k == Slots(b)[i];
    forall c: nat | c < 256
      ensures Count(b[..i + 1], c) == Count(b[..i], c) + (if b[i] == c then 1 else 0)
    {
      CountNext(b, i, c);
    }
  }

  method CountBytes(eclass: array<int>, nblock: nat, ghost b: seq<Byte>) returns (ftab: array<int>)
    requires nblock <= eclass.Length && b == Bytes(eclass[..], nblock)
    ensures fresh(ftab) && ftab.Length == 257
    ensures forall c :: 0 <= c < 256 ==> ftab[c] == Count(b, c)
    ensures ftab[256] == 0
  {
    ftab := new int[257](_ => 0);
    for i := 0 to nblock
      invariant fresh(ftab) && ftab[256] == 0
      invariant forall c :: 0 <= c < 256 ==> ftab[c] == Count(b[..i], c)
    {
      forall c ensures Count(b[..i + 1], c) == Count(b[..i], c) + (if b[i] == c then 1 else 0) {
        CountNext(b, i, c);
      }
      var j := ByteOf(eclass[i / 4], i % 4);
      assert j == b[i];
      ftab[j] := ftab[j] + 1;
    }
    assert b[..nblock] == b;
  }

  /** The one-character sort: fmap, the bucket starts, and a copy of the counts. */
  method RadixPass(fmap: array<int>, eclass: array<int>, nblock: nat, ghost b: seq<Byte>)
    returns (ftab: array<int>, ftabCopy: array<int>)
    requires fmap != eclass && fmap.Length == nblock <= eclass.Length && b == Bytes(eclass[..], nblock)
    modifies fmap
    ensures Bucketed(b, fmap[..])
    ensures fresh(ftab) && ftab.Length == 257 && forall c: nat :: c < 256 ==> ftab[c] == Below(b, c)
    ensures fresh(ftabCopy) && ftabCopy.Length == 256 && forall c :: 0 <= c < 256 ==> ftabCopy[c] == Count(b, c)
  {
    ftab := CountBytes(eclass, nblock, b);
    ftabCopy := CopyCounts(ftab, b);
    SumCounts(ftab, b);
    FillBuckets(fmap, eclass, ftab, nblock, b);
    assert b[..nblock] == b;
    FilledIsBucketed(b, fmap[..]);
  }

  method CopyCounts(ftab: array<int>, ghost b: seq<Byte>) returns (ftabCopy: array<int>)
    requires ftab.Length == 257 && forall c :: 0 <= c < 256 ==> ftab[c] == Count(b, c)
    ensures fresh(ftabCopy) && ftabCopy.Length == 256 && forall c :: 0 <= c < 256 ==> ftabCopy[c] == Count(b, c)
  {
    ftabCopy := new int[256];
    for i := 0 to 256
      invariant fresh(ftabCopy)
      invariant forall c :: 0 <= c < i ==> ftabCopy[c] == Count(b, c)
      modifies ftabCopy
    {
      ftabCopy[i] := ftab[i];
    }
  }

  /** Turns the counts into running totals. */
  method SumCounts(ftab: array<int>, ghost b: seq<Byte>)
    requires ftab.Length == 257 && ftab[256] == 0 && forall c :: 0 <= c < 256 ==> ftab[c] == Count(b, c)
    modifies ftab
    ensures forall c: nat :: c < 256 ==> ftab[c] == Below(b, c + 1)
  {
    for i := 1 to 257
      invariant forall c: nat :: c < i && c < 256 ==> ftab[c] == Below(b, c + 1)
      invariant forall c :: i <= c < 256 ==> ftab[c] == Count(b, c)
      invariant i == 257 || ftab[256] == 0
    {
      ftab[i] := ftab[i] + ftab[i - 1];
    }
  }

  /** Puts each position into its bucket, from the top. */
  method FillBuckets(fmap: array<int>, eclass: array<int>, ftab: array<int>, nblock: nat, ghost b: seq<Byte>)
    requires fmap != eclass && ftab != fmap && ftab != eclass && fmap.Length == nblock <= eclass.Length && b == Bytes(eclass[..], nblock)
    requires ftab.Length == 257 && forall c: nat :: c < 256 ==> ftab[c] == Below(b, c + 1)
    modifies fmap, ftab
    ensures FilledTo(b, fmap[..], ftab[..], nblock)
  {
    assert b[..0] == [];
    for i := 0 to nblock
      invariant FilledTo(b, fmap[..], ftab[..], i)
      invariant b == Bytes(eclass[..], nblock)
    {
      FillStep(b, fmap[..], ftab[..], i);
      var j := ByteOf(eclass[i / 4], i % 4);
      var k := ftab[j] - 1;
      ghost var f, t := fmap[..], ftab[..];
      ftab[j] := k;
      fmap[k] := i;
      assert fmap[..] == f[k := i] && ftab[..] == t[j := k];
    }
  }

  /** Writing byte p of the words changes no other byte. */
  lemma BytesSet(e: seq<int>, n: nat, p: int, c: Byte)
    requires n <= |e| && 0 <= p < n
    ensures Bytes(e[p / 4 := WithByte(e[p / 4], p % 4, c)], n) == Bytes(e, n)[p := c]
  {
    var e' := e[p / 4 := WithByte(e[p / 4], p % 4, c)];
    forall i | 0 <= i < n ensures Bytes(e', n)[i] == Bytes(e, n)[p := c][i] {
      ByteOfWith(e[p / 4], p % 4, i % 4, c);
    }
  }

  /** The characters of the positions, in sorted order. */
  ghost function Chars(b: seq<Byte>, f: seq<int>): (g: seq<Byte>)
    requires InRange(f, |b|)
    ensures |g| == |f| && forall k :: 0 <= k < |f| ==> g[k] == b[f[k]]
  {
    seq(|f|, k requires 0 <= k < |f| => b[f[k]])
  }

  /** In an ascending sequence each entry lies in its bucket. */
  lemma {:induction false} AscendingBucket(g: seq<Byte>, i: int)
    requires Ascending(g) && 0 <= i < |g|
    ensures Below(g, g[i]) <= i < Below(g, g[i] as int + 1)
    decreases |g|
  {
    var n := |g| - 1;
    BelowNext(g, g[i]);
    BelowNext(g, g[i] as int + 1);
    if i < n {
      AscendingBucket(g[..n], i);
      assert g[..n][i] == g[i] <= g[n];
      if g[n] == g[i] { BelowAtMost(g[..n], g[i] as int + 1); }
    } else {
      BelowAll(g[..n], g[n] as int + 1);
      BelowAtMost(g[..n], g[n]);
    }
  }

  lemma {:induction false} BelowAtMost(g: seq<Byte>, x: nat)
    ensures Below(g, x) <= |g|
    decreases |g|
  {
    if |g| == 0 {
      BelowEmpty(x);
    } else {
      BelowNext(g, x);
      BelowAtMost(g[..|g| - 1], x);
    }
  }

  /** Rearranging positions does not change how often a character occurs. */
  lemma CharsCount(b: seq<Byte>, f: seq<int>, c: int)
    requires |f| == |b| && IsPermutation(f)
    ensures Count(Chars(b, f), c) == Count(b, c)
  {
    PermutationMultiset(f);
    GatherMultiset(b, f, Iota(|b|));
    assert Gather(b, f) == Chars(b, f) && Gather(b, Iota(|b|)) == b;
    CountIsMultiplicity(Chars(b, f), c);
    CountIsMultiplicity(b, c);
  }

  lemma {:induction false} BelowSame(g: seq<int>, b: seq<int>, x: nat)
    requires forall c :: Count(g, c) == Count(b, c)
    ensures Below(g, x) == Below(b, x)
  {
    if x > 0 { BelowSame(g, b, x - 1); }
  }

  /** Positions sorted by character are bucketed. */
  lemma SortedIsBucketed(b: seq<Byte>, f: seq<int>)
    requires |f| == |b| && IsPermutation(f) && Ascending(Chars(b, f))
    ensures Bucketed(b, f)
  {
    var g := Chars(b, f);
    forall c ensures Count(g, c) == Count(b, c) { CharsCount(b, f, c); }
    forall k | 0 <= k < |f| ensures Below(b, b[f[k]]) <= k < Below(b, b[f[k]] as int + 1) {
      AscendingBucket(g, k);
      BelowSame(g, b, g[k]);
      BelowSame(g, b, g[k] as int + 1);
    }
  }

  /** The rebuilding pass before position i of the sorted order: the counts of characters
      below j are used up, and character j has been used i - Below(j) times. */
  ghost predicate UsedTo(b: seq<Byte>, counts: seq<int>, j: int, i: int) {
    && |counts| == 256 && 0 <= j < 256 && Below(b, j) <= i <= Below(b, j + 1)
    && counts[j] == Below(b, j + 1) - i
    && forall c :: j < c < 256 ==> counts[c] == Count(b, c)
  }

  /** Rebuilds the block from the sorted order and the character counts. */
  method Rebuild(fmap: array<int>, eclass: array<int>, ftabCopy: array<int>, nblock: nat, ghost b: seq<Byte>)
    requires fmap != eclass && ftabCopy != fmap && ftabCopy != eclass
    requires |b| == nblock == fmap.Length <= eclass.Length && Bucketed(b, fmap[..])
    requires ftabCopy.Length == 256 && forall c :: 0 <= c < 256 ==> ftabCopy[c] == Count(b, c)
    modifies eclass, ftabCopy
    ensures Bytes(eclass[..], nblock) == b
  {
    var j := 0;
    ghost var f := fmap[..];
    assert Below(b, 0) == 0;
    for i := 0 to nblock
      invariant fmap[..] == f && UsedTo(b, ftabCopy[..], j, i) && Rebuilt(eclass[..], f, b, i)
    {
      j := RebuildOne(eclass, ftabCopy, fmap[i], j, i, f, b);
    }
    forall p | 0 <= p < nblock ensures Bytes(eclass[..], nblock)[p] == b[p] {
      PermutationHits(f, p);
      var k :| 0 <= k < nblock && f[k] == p;
      assert RebuiltAt(eclass[..], f, b, k);
    }
  }

  /** The bytes of the first i positions in the order are in place. */
  ghost predicate Rebuilt(e: seq<int>, f: seq<int>, b: seq<Byte>, i: nat) {
    |b| <= |e| && i <= |f| == |b| && forall k :: 0 <= k < i ==> RebuiltAt(e, f, b, k)
  }

  ghost predicate RebuiltAt(e: seq<int>, f: seq<int>, b: seq<Byte>, k: int) {
    |b| <= |e| && 0 <= k < |f| && 0 <= f[k] < |b| && Bytes(e, |b|)[f[k]] == b[f[k]]
  }

  lemma RebuiltMore(e: seq<int>, f: seq<int>, b: seq<Byte>, i: nat, e': seq<int>)
    requires Rebuilt(e, f, b, i) && i < |f| && 0 <= f[i] < |b| && e' == e[f[i] / 4 := WithByte(e[f[i] / 4], f[i] % 4, b[f[i]])]
    ensures Rebuilt(e', f, b, i + 1)
  {
    BytesSet(e, |b|, f[i], b[f[i]]);
    forall k | 0 <= k < i + 1 ensures RebuiltAt(e', f, b, k) {
      if k < i { assert RebuiltAt(e, f, b, k); }
    }
  }

  /** Finds the byte of the i-th position in the order, and puts it in place. */
  method RebuildOne(eclass: array<int>, ftabCopy: array<int>, p: int, j0: int, ghost i: nat, ghost f: seq<int>, ghost b: seq<Byte>) returns (j: int)
    requires eclass != ftabCopy && |b| <= eclass.Length && i < |b| && Bucketed(b, f) && p == f[i]
    requires UsedTo(b, ftabCopy[..], j0, i) && Rebuilt(eclass[..], f, b, i)
    modifies eclass, ftabCopy
    ensures UsedTo(b, ftabCopy[..], j, i + 1) && Rebuilt(eclass[..], f, b, i + 1)
  {
    j := SkipEmpty(ftabCopy, j0, i, b);
    BucketOrder(b, j, b[f[i]], i, i);
    BucketOrder(b, b[f[i]], j, i, i);
    ftabCopy[j] := ftabCopy[j] - 1;
    ghost var e := eclass[..];
    eclass[p / 4] := WithByte(eclass[p / 4], p % 4, j);
    RebuiltMore(e, f, b, i, eclass[..]);
  }

  method SkipEmpty(ftabCopy: array<int>, j0: int, ghost i: nat, ghost b: seq<Byte>) returns (j: int)
    requires UsedTo(b, ftabCopy[..], j0, i) && i < |b|
    ensures UsedTo(b, ftabCopy[..], j, i) && ftabCopy[j] != 0
  {
    BelowAll(b, 256);
    j := j0;
    while ftabCopy[j] == 0
      invariant UsedTo(b, ftabCopy[..], j, i)
      decreases 256 - j
    {
      assert j != 255;
      j := j + 1;
    }
  }
}
