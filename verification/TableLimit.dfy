/** A complete distance code whose tables take exactly the space provided, and which inflate_table refuses
    (inftrees.c). */
module TableLimit {
  import opened Sequences
  import opened Bits
  import opened CodeWords
  import opened WordOrder
  import opened TableFill
  import opened TableSizes
  import opened DeflateCode
  import opened InflateTable
  import opened TableBuilder

  // ---- Lengths already in order ----

  lemma {:induction false} SortedSnoc(lens: seq<int>, l: nat)
    requires |lens| > 0 && lens[|lens| - 1] > 0 && forall k :: 0 <= k < |lens| ==> lens[k] <= lens[|lens| - 1]
    ensures var x := lens[|lens| - 1]; Sorted(lens, l) == Sorted(lens[..|lens| - 1], l) + (if x <= l then [x] else [])
  {
    var n, x := |lens| - 1, lens[|lens| - 1];
    if l > 0 {
      SortedSnoc(lens, l - 1);
      if x < l { NoneAbove(lens[..n], l); }
    }
  }

  lemma {:induction false} NoneAbove(s: seq<int>, l: int)
    requires forall k :: 0 <= k < |s| ==> s[k] < l
    ensures Count(s, l) == 0
  {
    if |s| > 0 { NoneAbove(s[..|s| - 1], l); }
  }

  /** Lengths in order are their own sorted list. */
  lemma {:induction false} SortedItself(lens: seq<int>, m: nat)
    requires Rising(lens, m)
    ensures Sorted(lens, m) == lens
  {
    if |lens| > 0 {
      SortedSnoc(lens, m);
      SortedItself(lens[..|lens| - 1], m);
    } else {
      SortedNothing(m);
    }
  }

  lemma {:induction false} SortedNothing(m: nat)
    ensures Sorted([], m) == []
  {
    if m > 0 { SortedNothing(m - 1); }
  }

  // ---- The space of one cell ----

  /** The words from j to k fill cell c. */
  ghost predicate Fills(ls: seq<int>, m: nat, root: nat, c: int, j: nat, k: nat) {
    && j < k <= |ls| && root <= m && ls[j] > root
    && Taken(ls, m, j) == c * Share(m, root) && Taken(ls, m, k) == (c + 1) * Share(m, root)
  }

  lemma FillsCell(ls: seq<int>, m: nat, root: nat, c: int, j: nat, k: nat, i: nat)
    requires Ordered(ls, m) && Fills(ls, m, root, c, j, k) && i < |ls| && root <= ls[i]
    ensures Cell(ls, root, i) == c <==> j <= i < k
  {
    CellHolds(ls, m, root, i);
    InSameCell(Taken(ls, m, i), Cell(ls, root, i), c, Share(m, root), Taken(ls, m, j), Taken(ls, m, j) + Share(m, root));
    TimesSum(c, 1, Share(m, root));
    assert Share(m, ls[i]) > 0;
    if i < j {
      TakenMonotone(ls, m, i + 1, j);
    } else if i < k {
      TakenMonotone(ls, m, j, i);
      TakenMonotone(ls, m, i + 1, k);
    } else {
      TakenMonotone(ls, m, k, i);
    }
  }

  lemma {:induction false} SpaceStays(ls: seq<int>, m: nat, root: nat, c: int, j: nat, k: nat, i: nat)
    requires Ordered(ls, m) && Fills(ls, m, root, c, j, k) && j < i <= k
    ensures Space(ls, root, i) == Space(ls, root, j + 1)
    decreases i
  {
    if i > j + 1 {
      SpaceStays(ls, m, root, c, j, k, i - 1);
      assert ls[j] <= ls[i - 2] && ls[j] <= ls[i - 1];
      FillsCell(ls, m, root, c, j, k, i - 1);
      FillsCell(ls, m, root, c, j, k, i - 2);
      SpaceSame(ls, root, i - 1);
    }
  }

  /** A cell takes a table as deep as its last word. */
  lemma CellSpace(ls: seq<int>, m: nat, root: nat, c: nat, j: nat, k: nat)
    requires Ordered(ls, m) && Fills(ls, m, root, c, j, k)
    ensures ls[k - 1] > root && Space(ls, root, k) == Space(ls, root, j) + Pow2(ls[k - 1] - root)
  {
    assert ls[j] <= ls[k - 1];
    forall i: nat | i < |ls| && root <= ls[i] && Cell(ls, root, i) == c ensures ls[i] <= ls[k - 1] {
      FillsCell(ls, m, root, c, j, k, i);
    }
    LongestIs(ls, root, c, |ls|, ls[k - 1]);
    FillsCell(ls, m, root, c, j, k, k - 1);
    FillsCell(ls, m, root, c, j, k, j);
    if j > 0 && ls[j - 1] > root { FillsCell(ls, m, root, c, j, k, j - 1); }
    SpaceMore(ls, root, j, ls[k - 1] - root);
    SpaceStays(ls, m, root, c, j, k, k);
  }

  // ---- The code ----

  /** Thirty lengths: three of 2, one of 3, thirteen of 7, five of 8, one each of 9 to 14, two of 15. */
  ghost predicate Tight(ls: seq<int>) {
    && |ls| == 30 && Run(ls, 2, 0, 3) && Run(ls, 3, 3, 4) && Run(ls, 7, 4, 17) && Run(ls, 8, 17, 22)
    && (forall k :: 22 <= k < 29 ==> ls[k] == k - 13) && ls[29] == 15
  }

  function TightLengths(): (ls: seq<int>)
    ensures Tight(ls)
  {
    [2, 2, 2, 3, 7, 7, 7, 7, 7, 7, 7, 7, 7, 7, 7, 7, 7, 8, 8, 8, 8, 8, 9, 10, 11, 12, 13, 14, 15, 15]
  }

  lemma TightRises(ls: seq<int>)
    requires Tight(ls)
    ensures Rising(ls, 15)
  {
    forall i, j | 0 <= i <= j < |ls| ensures ls[i] <= ls[j] {
    }
  }

  lemma Shares()
    ensures Share(15, 2) == 8192 && Share(15, 3) == 4096 && Share(15, 6) == 512 && Share(15, 7) == 256 && Share(15, 8) == 128
    ensures Share(15, 9) == 64 && Share(15, 10) == 32 && Share(15, 11) == 16 && Share(15, 12) == 8 && Share(15, 13) == 4
    ensures Share(15, 14) == 2 && Share(15, 15) == 1 && Pow2(15) == 32768 && Pow2(6) == 64
  {
    assert Pow2(5) == 32;
    assert Pow2(10) == 1024;
  }

  lemma TightTaken(ls: seq<int>, i: nat)
    requires Tight(ls)
    ensures Taken(ls, 15, 4) == 28672
    ensures i <= 13 ==> Taken(ls, 15, 4 + i) == 28672 + 256 * i
    ensures i <= 5 ==> Taken(ls, 15, 17 + i) == 32000 + 128 * i
  {
    Shares();
    TakenRun(ls, 15, 2, 0, 3);
    TakenRun(ls, 15, 3, 3, 4);
    if i <= 13 { TakenRun(ls, 15, 7, 4, 4 + i); }
    TakenRun(ls, 15, 7, 4, 17);
    if i <= 5 { TakenRun(ls, 15, 8, 17, 17 + i); }
  }

  /** The code is complete. */
  lemma TightComplete(ls: seq<int>)
    requires Tight(ls)
    ensures Taken(ls, 15, 30) == 32768 && Ordered(ls, 15) && Pow2(15) == 32768
  {
    Shares();
    TightTaken(ls, 5);
    assert Taken(ls, 15, 23) == 32704;
    assert Taken(ls, 15, 24) == 32736;
    assert Taken(ls, 15, 25) == 32752;
    assert Taken(ls, 15, 26) == 32760;
    assert Taken(ls, 15, 27) == 32764;
    assert Taken(ls, 15, 28) == 32766;
    assert Taken(ls, 15, 29) == 32767;
    TightRises(ls);
  }

  lemma {:induction false} TightPairs(ls: seq<int>, i: nat)
    requires Tight(ls) && Ordered(ls, 15) && i <= 6
    ensures Space(ls, 6, 4 + 2 * i) == 64 + 2 * i
    decreases i
  {
    if i == 0 {
      TightShort(ls);
    } else {
      Shares();
      TightPairs(ls, i - 1);
      TightTaken(ls, 2 * (i - 1));
      TightTaken(ls, 2 * i);
      var j := 4 + 2 * (i - 1);
      CellSpace(ls, 15, 6, 55 + i, j, j + 2);
      assert ls[j + 1] == 7 && Pow2(1) == 2;
    }
  }

  lemma TightShort(ls: seq<int>)
    requires Tight(ls)
    ensures Space(ls, 6, 4) == 64
  {
    Shares();
    SpaceSame(ls, 6, 0);
    SpaceSame(ls, 6, 1);
    SpaceSame(ls, 6, 2);
    SpaceSame(ls, 6, 3);
  }

  /** Its tables take exactly 592 entries. */
  lemma TightSpace(ls: seq<int>)
    requires Tight(ls)
    ensures Space(ls, 6, 30) == 592
  {
    Shares();
    TightComplete(ls);
    TightPairs(ls, 6);
    TightTaken(ls, 12);
    TightTaken(ls, 2);
    CellSpace(ls, 15, 6, 62, 16, 19);
    assert Pow2(2) == 4;
    CellSpace(ls, 15, 6, 63, 19, 30);
    assert Pow2(9) == 512;
  }

  /** A complete distance code that needs no more space than is provided, and is refused for want of
      space. */
  lemma TightRefused(ls: seq<int>)
    requires Tight(ls)
    ensures Lengths(ls) && |ls| == 30 && Kraft(ls) == Pow2(MaxBits) && LongestLen(ls) > 0
    ensures !BadLengths(Dists, ls) && SpaceFor(ls, 6) == Provided(Dists, 6) && !Enough(Dists, SpaceFor(ls, 6))
  {
    TightBounds(ls);
    SortedItself(ls, 15);
    assert Kraft(ls) == Pow2(MaxBits) by {
      TightComplete(ls);
      AllTaken(ls, 15);
      FilledAll(ls, 15);
    }
    TightSpace(ls);
  }

  /** inflate_table on it: the answer is 1. */
  method BuildTight(table: array<Entry>, work: array<int>) returns (ret: int)
    requires work.Length >= 30 && table.Length >= 592
    modifies table, work
    ensures ret == 1
  {
    TightRefused(TightLengths());
    var root, used;
    ret, root, used := BuildTable(Dists, TightLengths(), table, 6, work);
  }

  lemma TightBounds(ls: seq<int>)
    requires Tight(ls)
    ensures Lengths(ls) && LongestLen(ls) == 15 && RootBits(ls, 6) == 6
  {
    TightRises(ls);
    forall k | 0 <= k < |ls| ensures 0 <= ls[k] < 16 {
    }
    LongestBounds(ls, 29);
    LongestIsMax(ls, 15);
    ShortestBounds(ls, 0);
  }

  lemma {:induction false} ShortestBounds(lens: seq<int>, s: nat)
    requires Coded(lens, s)
    ensures 0 < ShortestLen(lens) <= lens[s]
  {
    if s < |lens| - 1 { ShortestBounds(lens[..|lens| - 1], s); }
  }
}
