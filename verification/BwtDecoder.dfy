/** The decoder's inverse-transform set-up (end of BZ2_decompress): cumulative counts, the
    packed T^(-1) vector of the FAST path, and the 20-bit slots of the SMALL path. */
module BwtDecoder {
  import opened Sequences
  import opened Bits
  import opened InverseBwt

  /** The T^(-1) vector of a last column. */
  ghost function Inverse(l: seq<Byte>): (t: seq<int>)
    ensures IsInverse(l, t)
  {
    RowsArePermutation(l);
    var t := seq(|l|, k requires 0 <= k < |l| =>
                        PermutationHits(Rows(l), k);
                        var i :| 0 <= i < |l| && Rows(l)[i] == k; i);
    assert forall i :: 0 <= i < |l| ==> 0 <= Rows(l)[i] < |l| && t[Rows(l)[i]] == i;
    t
  }

  ghost predicate IsCumulative(cftab: seq<int>, l: seq<Byte>) {
    |cftab| == 257 && forall c: nat :: c <= 256 ==> cftab[c] == Below(l, c)
  }

  /** Turns the symbol counts into bucket starts. The range and order checks the decoder makes
      never fail on true counts. */
  method CumulativeCounts(unzftab: array<int>, nblock: nat, ghost l: seq<Byte>)
    returns (ok: bool, cftab: array<int>)
    requires unzftab.Length == 256 && |l| == nblock
    requires forall c :: 0 <= c < 256 ==> unzftab[c] == Count(l, c)
    ensures ok && fresh(cftab) && IsCumulative(cftab[..], l)
  {
    var inRange := CountsInRange(unzftab, nblock, l);
    cftab := RunningTotals(unzftab, l);
    var inOrder := TotalsInOrder(cftab, nblock, l);
    ok := inRange && inOrder;
  }

  method CountsInRange(unzftab: array<int>, nblock: nat, ghost l: seq<Byte>) returns (ok: bool)
    requires unzftab.Length == 256 && |l| == nblock
    requires forall c :: 0 <= c < 256 ==> unzftab[c] == Count(l, c)
    ensures ok
  {
    for i := 0 to 256 {
      if unzftab[i] < 0 || unzftab[i] > nblock { return false; }
    }
    ok := true;
  }

  method RunningTotals(unzftab: array<int>, ghost l: seq<Byte>) returns (cftab: array<int>)
    requires unzftab.Length == 256
    requires forall c :: 0 <= c < 256 ==> unzftab[c] == Count(l, c)
    ensures fresh(cftab) && IsCumulative(cftab[..], l)
  {
    cftab := new int[257];
    cftab[0] := 0;
    for i := 1 to 257
      invariant cftab[0] == 0
      invariant forall c :: 1 <= c < i ==> cftab[c] == Count(l, c - 1)
      invariant forall c :: 0 <= c < 256 ==> unzftab[c] == Count(l, c)
    {
      cftab[i] := unzftab[i - 1];
    }
    for i := 1 to 257
      invariant forall c: nat :: c < i ==> cftab[c] == Below(l, c)
      invariant forall c :: i <= c < 257 ==> cftab[c] == Count(l, c - 1)
    {
      cftab[i] := cftab[i] + cftab[i - 1];
    }
  }

  lemma BelowWhole(l: seq<Byte>, c: nat)
    requires c <= 256
    ensures Below(l, c) <= |l|
  {
    BelowAll(l, 256);
    BelowMonotone(l, c, 256);
  }

  method TotalsInOrder(cftab: array<int>, nblock: nat, ghost l: seq<Byte>) returns (ok: bool)
    requires |l| == nblock && IsCumulative(cftab[..], l)
    ensures ok
  {
    for i := 0 to 257 {
      BelowWhole(l, i);
      assert cftab[..][i] == Below(l, i);
      if cftab[i] < 0 || cftab[i] > nblock { return false; }
    }
    for i := 1 to 257 {
      BelowMonotone(l, i - 1, i);
      assert cftab[..][i] == Below(l, i) && cftab[..][i - 1] == Below(l, i - 1);
      if cftab[i - 1] > cftab[i] { return false; }
    }
    ok := true;
  }

  /** Where the counting pass of the set-up loops stands after i characters. */
  ghost predicate CountedTo(cftab: seq<int>, l: seq<Byte>, i: int)
    requires 0 <= i <= |l|
  {
    |cftab| == 257 && forall c: nat :: c < 256 ==> cftab[c] == Below(l, c) + Count(l[..i], c)
  }

  lemma CountedStart(cftab: seq<int>, l: seq<Byte>)
    requires IsCumulative(cftab, l)
    ensures CountedTo(cftab, l, 0)
  {
    assert l[..0] == [];
  }

  lemma CountedStep(cftab: seq<int>, l: seq<Byte>, i: int)
    requires 0 <= i < |l| && CountedTo(cftab, l, i)
    ensures cftab[l[i]] == Row(l, i)
    ensures CountedTo(cftab[l[i] := cftab[l[i]] + 1], l, i + 1)
  {
    forall c: nat | c < 256
      ensures Count(l[..i + 1], c) == Count(l[..i], c) + (if l[i] == c then 1 else 0)
    {
      CountNext(l, i, c);
    }
  }

  /** After i characters, the rows of those characters are packed and the others bare. */
  ghost predicate PackedTo(tt: seq<int>, l: seq<Byte>, rows: seq<int>, i: int)
    requires |rows| == |l|
  {
    && |tt| >= |l| && InRange(rows, |l|)
    && (forall j :: 0 <= j < |l| ==> tt[rows[j]] == l[rows[j]] + (if j < i then 256 * j else 0))
  }

  lemma PackedAt(tt: seq<int>, l: seq<Byte>, rows: seq<int>, i: int, k: int)
    requires |rows| == |l| && IsPermutation(rows) && PackedTo(tt, l, rows, i) && 0 <= k < |l|
    ensures exists j :: 0 <= j < |l| && rows[j] == k && tt[k] == l[k] + (if j < i then 256 * j else 0)
    ensures tt[k] >= 0 && tt[k] % 256 == l[k]
  {
    PermutationHits(rows, k);
    var j :| 0 <= j < |l| && rows[j] == k;
    assert tt[rows[j]] == l[rows[j]] + (if j < i then 256 * j else 0);
  }

  lemma PackedStep(tt: seq<int>, l: seq<Byte>, rows: seq<int>, i: int)
    requires |rows| == |l| && IsPermutation(rows) && PackedTo(tt, l, rows, i) && 0 <= i < |l|
    ensures 0 <= tt[rows[i]] < 256
    ensures PackedTo(tt[rows[i] := tt[rows[i]] + 256 * i], l, rows, i + 1)
  {
    var tt' := tt[rows[i] := tt[rows[i]] + 256 * i];
    forall j | 0 <= j < |l|
      ensures tt'[rows[j]] == l[rows[j]] + (if j < i + 1 then 256 * j else 0)
    {
      if j != i { assert rows[j] != rows[i]; }
    }
  }

  lemma OrHighByte(x: nat, i: nat)
    requires x < 256
    ensures BitOr(x, i * 256) == x + 256 * i
  {
    assert Pow2(8) == 256;
    BitOrDisjoint(i * 256, x, 8);
    BitOrSwap(i * 256, x);
  }

  /** The FAST vector: slot k holds last-column character k in its low byte and T^(-1)[k]
      above it. Each slot is or-ed once, while it still holds a bare character. */
  method BuildFast(tt: array<int>, cftab: array<int>, nblock: nat, ghost l: seq<Byte>)
    requires tt != cftab && |l| == nblock <= tt.Length && tt[..nblock] == l
    requires IsCumulative(cftab[..], l)
    modifies tt, cftab
    ensures forall k :: 0 <= k < nblock ==> tt[k] == l[k] + 256 * Inverse(l)[k]
  {
    ghost var rows := Rows(l);
    RowsArePermutation(l);
    CountedStart(cftab[..], l);
    for i := 0 to nblock
      invariant CountedTo(cftab[..], l, i) && PackedTo(tt[..], l, rows, i)
    {
      PackedAt(tt[..], l, rows, i, i);
      var uc := tt[i] % 256;
      CountedStep(cftab[..], l, i);
      PackedStep(tt[..], l, rows, i);
      OrHighByte(tt[cftab[uc]], i);
      tt[cftab[uc]] := BitOr(tt[cftab[uc]], i * 256);
      cftab[uc] := cftab[uc] + 1;
    }
    forall k | 0 <= k < nblock ensures tt[k] == l[k] + 256 * Inverse(l)[k] {
      PackedAt(tt[..], l, rows, nblock, k);
    }
  }

  lemma {:induction false} BitOrSwap(a: nat, b: nat)
    ensures BitOr(a, b) == BitOr(b, a)
    decreases a + b
  {
    if a > 0 || b > 0 { BitOrSwap(a / 2, b / 2); }
  }

  /** The half byte of x that belongs to slot i. */
  function HalfByte(x: int, i: int): int { if i % 2 == 0 then x % 16 else x / 16 }

  function WithHalfByte(x: int, i: int, h: int): int {
    if i % 2 == 0 then x / 16 * 16 + h else x % 16 + h * 16
  }

  lemma HalfByteSet(x: int, i: int, j: int, h: int)
    requires 0 <= x < 256 && 0 <= h < 16
    ensures 0 <= WithHalfByte(x, i, h) < 256
    ensures HalfByte(WithHalfByte(x, i, h), j) == if i % 2 == j % 2 then h else HalfByte(x, j)
  {
  }

  /** The 20-bit slots of the SMALL path: sixteen bits in ll16, four in half a byte of ll4. */
  class PackedSlots {
    const ll16: array<int>
    const ll4: array<int>

    constructor (n: nat)
      ensures Valid() && ll16.Length == n && fresh(ll16) && fresh(ll4)
    {
      ll16 := new int[n](_ => 0);
      ll4 := new int[(1 + n) / 2](_ => 0);
    }

    ghost predicate Valid()
      reads ll16, ll4
    {
      && ll16 != ll4 && ll4.Length * 2 >= ll16.Length
      && (forall i :: 0 <= i < ll16.Length ==> 0 <= ll16[i] < 0x10000)
      && (forall i :: 0 <= i < ll4.Length ==> 0 <= ll4[i] < 0x100)
    }

    /** GET_LL. */
    function Get(i: int): (r: int)
      requires Valid() && 0 <= i < ll16.Length
      reads ll16, ll4
      ensures 0 <= r < 0x100000
    {
      ll16[i] + HalfByte(ll4[i / 2], i) * 0x10000
    }

    /** The numbers in the slots. */
    ghost function Contents(): (r: seq<int>)
      requires Valid()
      reads ll16, ll4
      ensures |r| == ll16.Length && forall i :: 0 <= i < |r| ==> r[i] == Get(i)
    {
      seq(ll16.Length, i requires 0 <= i < ll16.Length && Valid() reads ll16, ll4 => Get(i))
    }

    /** SET_LL: the other half of the shared ll4 byte is kept. */
    method Set(i: int, n: int)
      requires Valid() && 0 <= i < ll16.Length && 0 <= n < 0x100000
      modifies ll16, ll4
      ensures Valid() && Contents() == old(Contents())[i := n]
      ensures ll16[..] == old(ll16[..])[i := n % 0x10000]
    {
      ghost var was, byte := Contents(), ll4[i / 2];
      ll16[i] := n % 0x10000;
      HalfByteSet(byte, i, i, n / 0x10000);
      ll4[i / 2] := WithHalfByte(ll4[i / 2], i, n / 0x10000);
      forall j | 0 <= j < ll16.Length ensures Get(j) == was[i := n][j] {
        HalfByteSet(byte, i, j, n / 0x10000);
      }
    }
  }

  /** Computes T in place of the characters, then reverses the pointers of the cycle through
      origPtr. From then on each slot of that cycle holds T^(-1). The reversal loop stops
      because T is a permutation: the cycle must come back to its start. */
  method BuildSmall(s: PackedSlots, cftab: array<int>, nblock: nat, origPtr: int, ghost l: seq<Byte>)
    requires s.Valid() && cftab != s.ll16 && cftab != s.ll4
    requires |l| == nblock <= s.ll16.Length && nblock < 0x100000 && 0 <= origPtr < nblock
    requires s.ll16[..nblock] == l && IsCumulative(cftab[..], l)
    modifies s.ll16, s.ll4
    ensures s.Valid() && cftab[..] == old(cftab[..])
    ensures forall m: nat {:trigger s.Get(Walk(Inverse(l), origPtr, m))} ::
              s.Get(Walk(Inverse(l), origPtr, m)) == Walk(Inverse(l), origPtr, m + 1)
  {
    RowsArePermutation(l);
    ComputeT(s, cftab, nblock, l);
    ghost var cycle := ReverseCycle(s, nblock, origPtr, Rows(l));
    forall m: nat ensures s.Get(Walk(Inverse(l), origPtr, m)) == Walk(Inverse(l), origPtr, m + 1) {
      WalkStaysOnCycle(l, origPtr, cycle, m);
      var k :| 0 < k < |cycle| && cycle[k] == Walk(Inverse(l), origPtr, m);
      assert s.Contents()[cycle[k]] == cycle[k - 1];
      assert Rows(l)[cycle[k - 1]] == cycle[k];
    }
  }

  method CopyTable(a: array<int>) returns (b: array<int>)
    ensures fresh(b) && b[..] == a[..]
  {
    b := new int[a.Length];
    for i := 0 to a.Length
      invariant b[..i] == a[..i]
      modifies b
    {
      b[i] := a[i];
    }
  }

  method ComputeT(s: PackedSlots, cftab: array<int>, nblock: nat, ghost l: seq<Byte>)
    requires s.Valid() && cftab != s.ll16 && cftab != s.ll4
    requires |l| == nblock <= s.ll16.Length && nblock < 0x100000
    requires s.ll16[..nblock] == l && IsCumulative(cftab[..], l)
    modifies s.ll16, s.ll4
    ensures s.Valid() && cftab[..] == old(cftab[..])
    ensures s.Contents()[..nblock] == Rows(l)
  {
    var cftabCopy := CopyTable(cftab);
    CountedStart(cftabCopy[..], l);
    for i := 0 to nblock
      invariant s.Valid() && cftab[..] == old(cftab[..])
      invariant CountedTo(cftabCopy[..], l, i)
      invariant s.Contents()[..i] == Rows(l)[..i]
      invariant s.ll16[i..nblock] == l[i..]
    {
      assert s.ll16[i] == s.ll16[i..nblock][0] == l[i];
      SetRow(s, cftabCopy, i, nblock, l);
    }
  }

  method Bump(a: array<int>, c: nat)
    requires c < a.Length
    modifies a
    ensures a[..] == old(a[..])[c := old(a[c]) + 1]
  {
    a[c] := a[c] + 1;
  }

  lemma SetFront(s: seq<int>, r: seq<int>, i: nat, v: int)
    requires i < |s| && i < |r| && s[..i] == r[..i] && v == r[i]
    ensures s[i := v][..i + 1] == r[..i + 1]
  {
  }

  lemma DropSet(s: seq<int>, i: nat, n: nat, v: int, l: seq<int>)
    requires i < n <= |s| && n == |l| && s[i..n] == l[i..]
    ensures s[i := v][i + 1..n] == l[i + 1..]
  {
    assert s[i + 1..n] == s[i..n][1..];
  }

  /** Sets row i, and counts its byte. */
  method SetRow(s: PackedSlots, cftabCopy: array<int>, i: nat, nblock: nat, ghost l: seq<Byte>)
    requires s.Valid() && cftabCopy != s.ll16 && cftabCopy != s.ll4 && i < nblock == |l| <= s.ll16.Length && nblock < 0x100000
    requires CountedTo(cftabCopy[..], l, i) && s.Contents()[..i] == Rows(l)[..i] && s.ll16[i] == l[i] && s.ll16[i..nblock] == l[i..]
    modifies s.ll16, s.ll4, cftabCopy
    ensures s.Valid() && CountedTo(cftabCopy[..], l, i + 1) && s.Contents()[..i + 1] == Rows(l)[..i + 1] && s.ll16[i + 1..nblock] == l[i + 1..]
  {
    var uc := s.ll16[i];
    RowBucket(l, i);
    CountedStep(cftabCopy[..], l, i);
    ghost var was, was16 := s.Contents(), s.ll16[..];
    var row := cftabCopy[uc];
    Bump(cftabCopy, uc);
    s.Set(i, row);
    SetFront(was, Rows(l), i, row);
    DropSet(was16, i, nblock, row % 0x10000, l);
  }

  /** cycle[0], cycle[1], ... is the path o, T(o), T(T(o)), ... */
  ghost predicate IsPath(cycle: seq<int>, t: seq<int>, o: int) {
    && |cycle| > 0 && cycle[0] == o && InRange(cycle, |t|)
    && forall k :: 0 < k < |cycle| ==> t[cycle[k - 1]] == cycle[k]
  }

  /** The slots after the pointers of a path have been turned round. */
  ghost predicate Reversed(slots: seq<int>, cycle: seq<int>, t: seq<int>)
    requires |t| <= |slots| && InRange(cycle, |t|)
  {
    && (forall k :: 0 < k < |cycle| ==> slots[cycle[k]] == cycle[k - 1])
    && (forall x :: 0 <= x < |t| && (forall k :: 0 < k < |cycle| ==> cycle[k] != x) ==> slots[x] == t[x])
  }

  method ReverseCycle(s: PackedSlots, nblock: nat, origPtr: int, ghost t: seq<int>)
    returns (ghost cycle: seq<int>)
    requires s.Valid() && |t| == nblock <= s.ll16.Length && nblock < 0x100000
    requires IsPermutation(t) && 0 <= origPtr < nblock && s.Contents()[..nblock] == t
    modifies s.ll16, s.ll4
    ensures s.Valid() && IsPath(cycle, t, origPtr) && Reversed(s.Contents(), cycle, t)
    ensures |cycle| > 1 && cycle[|cycle| - 1] == origPtr
  {
    var i := origPtr;
    var j := s.Get(i);
    cycle := [i];
    assert s.Contents()[..nblock][i] == s.Contents()[i];
    while true
      invariant s.Valid() && IsPath(cycle, t, origPtr) && Reversed(s.Contents(), cycle, t)
      invariant 0 <= i < nblock && i == cycle[|cycle| - 1] && j == t[i]
      invariant Distinct(cycle)
      decreases nblock - |cycle|
    {
      DistinctBound(cycle, nblock);
      ReverseStep(s.Contents(), cycle, t, origPtr);
      var tmp := s.Get(j);
      s.Set(j, i);
      cycle := cycle + [j];
      i := j;
      j := tmp;
      if i == origPtr { break; }
      DistinctBound(cycle, nblock);
    }
  }

  /** The next node of an unfinished path is either new or the start, so its own pointer is
      still intact. */
  lemma ReverseStep(slots: seq<int>, cycle: seq<int>, t: seq<int>, o: int)
    requires IsPermutation(t) && IsPath(cycle, t, o) && Distinct(cycle)
    requires |t| <= |slots| && Reversed(slots, cycle, t)
    ensures var i := cycle[|cycle| - 1]; var j := t[i];
            && slots[j] == t[j]
            && IsPath(cycle + [j], t, o) && Reversed(slots[j := i], cycle + [j], t)
            && (j != o ==> Distinct(cycle + [j]))
  {
    var z := |cycle| - 1;
    var i, j := cycle[z], t[cycle[z]];
    forall k | 0 < k < |cycle| ensures cycle[k] != j {
      assert t[cycle[k - 1]] == cycle[k] && cycle[k - 1] != cycle[z];
    }
    var slots', cycle' := slots[j := i], cycle + [j];
    forall x | 0 <= x < |t| && (forall k :: 0 < k < |cycle'| ==> cycle'[k] != x)
      ensures slots'[x] == t[x]
    {
      assert cycle'[|cycle|] == j;
      assert forall k :: 0 < k < |cycle| ==> cycle'[k] == cycle[k];
    }
  }

  lemma {:induction false} WalkStaysOnCycle(l: seq<Byte>, o: int, cycle: seq<int>, m: nat)
    requires IsPath(cycle, Rows(l), o) && |cycle| > 1 && cycle[|cycle| - 1] == o && 0 <= o < |l|
    ensures exists k :: 0 < k < |cycle| && cycle[k] == Walk(Inverse(l), o, m)
  {
    if m == 0 {
      assert cycle[|cycle| - 1] == Walk(Inverse(l), o, 0);
    } else {
      WalkStaysOnCycle(l, o, cycle, m - 1);
      var k :| 0 < k < |cycle| && cycle[k] == Walk(Inverse(l), o, m - 1);
      assert Rows(l)[cycle[k - 1]] == cycle[k];
      assert Inverse(l)[cycle[k]] == cycle[k - 1];
      if k == 1 {
        assert cycle[|cycle| - 1] == cycle[0];
      }
    }
  }

  /** The bucket a row lies in, by bisection. */
  method IndexIntoF(indx: int, cftab: array<int>) returns (nb: int)
    requires cftab.Length == 257 && cftab[0] <= indx < cftab[256]
    ensures 0 <= nb < 256 && cftab[nb] <= indx < cftab[nb + 1]
  {
    nb := 0;
    var na := 256;
    while na - nb != 1
      invariant 0 <= nb < na <= 256 && cftab[nb] <= indx < cftab[na]
      decreases na - nb
    {
      var mid := (nb + na) / 2;
      if indx >= cftab[mid] { nb := mid; } else { na := mid; }
    }
  }

  /** Only one bucket brackets a row: that of the character the row starts with. */
  lemma BucketIsUnique(l: seq<Byte>, t: seq<int>, k: int, c: nat)
    requires IsInverse(l, t) && 0 <= k < |l| && Below(l, c) <= k < Below(l, c + 1)
    ensures c == l[t[k]]
  {
    var i := t[k];
    InverseBothWays(l, t, k);
    RowBucket(l, i);
    if c < l[i] { BelowMonotone(l, c + 1, l[i]); }
    if l[i] < c { BelowMonotone(l, l[i] as int + 1, c); }
  }
}
