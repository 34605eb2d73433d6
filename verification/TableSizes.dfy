/** How large the tables of inflate_table must be: a sub-table has as many index bits as the longest
    word of its cell has bits past the root. */
module TableSizes {
  import opened Bits
  import opened CodeWords
  import opened WordOrder
  import opened TableFill

  /** How many words have c bits or fewer. */
  ghost function Upto(ls: seq<int>, c: int): (n: nat)
    ensures n <= |ls|
  {
    if |ls| == 0 then 0 else if ls[|ls| - 1] <= c then |ls| else Upto(ls[..|ls| - 1], c)
  }

  lemma {:induction false} UptoIs(ls: seq<int>, m: nat, c: int, j: nat)
    requires Rising(ls, m) && j < |ls|
    ensures ls[j] <= c <==> j < Upto(ls, c)
    decreases |ls|
  {
    var n := |ls| - 1;
    assert ls[j] <= ls[n];
    if ls[n] > c && j < n { UptoIs(ls[..n], m, c, j); }
  }

  lemma UptoMonotone(ls: seq<int>, m: nat, c: int, d: int)
    requires Rising(ls, m) && c <= d
    ensures Upto(ls, c) <= Upto(ls, d)
  {
    var j := Upto(ls, d);
    if j < Upto(ls, c) {
      UptoIs(ls, m, c, j);
      UptoIs(ls, m, d, j);
    }
  }

  /** The words from j to k all have c bits. */
  ghost predicate Run(ls: seq<int>, c: int, j: nat, k: nat) {
    j <= k <= |ls| && forall i :: j <= i < k ==> ls[i] == c
  }

  lemma {:induction false} TakenRun(ls: seq<int>, m: nat, c: int, j: nat, k: nat)
    requires Run(ls, c, j, k)
    ensures Taken(ls, m, k) == Taken(ls, m, j) + (k - j) * Share(m, c)
    decreases k
  {
    if j < k {
      TakenRun(ls, m, c, j, k - 1);
      TimesSum(k - 1 - j, 1, Share(m, c));
    }
  }

  /** What count holds once the k-th word is the next: of its own length the words left, of the
      longer lengths all. */
  ghost predicate Counts(count: seq<int>, ls: seq<int>, m: nat, k: nat)
    requires k < |ls|
  {
    && 0 <= ls[k] <= m < |count| && count[ls[k]] == Upto(ls, ls[k]) - k
    && forall c :: ls[k] < c <= m ==> Left(count, ls, c)
  }

  ghost predicate Left(count: seq<int>, ls: seq<int>, c: int) { 0 <= c < |count| && count[c] == Upto(ls, c) - Upto(ls, c - 1) }

  /** The first word not counted yet when lengths below c are. */
  ghost function Reached(ls: seq<int>, k: nat, c: int): nat
    requires k < |ls|
  {
    if c <= ls[k] then k else Upto(ls, c - 1)
  }

  lemma RunBetween(ls: seq<int>, m: nat, c: int, j: nat)
    requires Rising(ls, m) && j <= Upto(ls, c) && (j >= Upto(ls, c - 1) || (j < |ls| && ls[j] == c))
    ensures Run(ls, c, j, Upto(ls, c))
  {
    forall i | j <= i < Upto(ls, c) ensures ls[i] == c {
      UptoIs(ls, m, c, i);
      UptoIs(ls, m, c - 1, i);
      assert j < |ls| ==> ls[j] <= ls[i];
    }
  }

  lemma ReachedRun(count: seq<int>, ls: seq<int>, m: nat, k: nat, c: nat)
    requires Rising(ls, m) && k < |ls| && Counts(count, ls, m, k) && ls[k] <= c <= m
    ensures var j := Reached(ls, k, c); k <= j && Run(ls, c, j, Upto(ls, c)) && count[c] == Upto(ls, c) - j
  {
    UptoIs(ls, m, c, k);
    UptoMonotone(ls, m, c - 1, c);
    UptoIs(ls, m, c - 1, k);
    RunBetween(ls, m, c, Reached(ls, k, c));
    assert c > ls[k] ==> Left(count, ls, c);
  }

  // ---- The size of one sub-table ----

  /** c is the least length, from that of the k-th word on, whose words and the shorter ones reach
      the end of the cell, or the greatest length there is. */
  ghost predicate Reaching(ls: seq<int>, m: nat, k: nat, end: int, c: int)
    requires k < |ls|
  {
    && ls[k] <= c <= m && (c == m || Taken(ls, m, Upto(ls, c)) >= end)
    && (c > ls[k] ==> Taken(ls, m, Upto(ls, c - 1)) < end)
  }

  /** What the loop keeps: left words of c bits would fill the rest of the cell. */
  ghost predicate Sizing(ls: seq<int>, m: nat, k: nat, end: int, c: int, left: int)
    requires k < |ls|
  {
    SizingSealed(9, ls, m, k, end, c, left)
  }

  /** The count z only keeps the verifier from looking inside. */
  ghost predicate SizingSealed(z: nat, ls: seq<int>, m: nat, k: nat, end: int, c: int, left: int)
    requires k < |ls|
    decreases z, |ls|
  {
    if z == 0 then left * Share(m, c) == end - Taken(ls, m, Reached(ls, k, c)) else SizingSealed(z - 1, ls, m, k, end, c, left)
  }

  lemma {:induction false} SizingSeal(z: nat, ls: seq<int>, m: nat, k: nat, end: int, c: int, left: int)
    requires k < |ls|
    ensures SizingSealed(z, ls, m, k, end, c, left) <==> left * Share(m, c) == end - Taken(ls, m, Reached(ls, k, c))
  {
    if z > 0 { SizingSeal(z - 1, ls, m, k, end, c, left); }
  }

  lemma SizeStep(count: seq<int>, ls: seq<int>, m: nat, k: nat, end: int, c: nat, left: int)
    requires Rising(ls, m) && k < |ls| && Counts(count, ls, m, k) && ls[k] <= c <= m && Sizing(ls, m, k, end, c, left)
    ensures (left - count[c]) * Share(m, c) == end - Taken(ls, m, Upto(ls, c))
  {
    SizingSeal(9, ls, m, k, end, c, left);
    ReachedRun(count, ls, m, k, c);
    TakenRun(ls, m, c, Reached(ls, k, c), Upto(ls, c));
    Distrib(left, count[c], Share(m, c));
  }

  lemma SizeSign(left: int, s: int, end: int, t: int)
    requires s > 0 && left * s == end - t
    ensures left <= 0 <==> t >= end
  {
    MultipleAtLeast(left, s);
  }

  lemma SizeNext(m: nat, c: nat, left: int, d: int)
    requires c < m && left * Share(m, c) == d
    ensures (2 * left) * Share(m, c + 1) == d
  {
    ShareSplit(m, c, c + 1);
    assert Pow2(1) == 2;
    TimesAssoc(left, 2, Share(m, c + 1));
  }

  lemma SizeTurn(count: seq<int>, ls: seq<int>, m: nat, k: nat, end: int, c: nat, left: int)
    requires Rising(ls, m) && k < |ls| && Counts(count, ls, m, k) && ls[k] <= c < m && Sizing(ls, m, k, end, c, left)
    ensures left - count[c] <= 0 <==> Taken(ls, m, Upto(ls, c)) >= end
    ensures Sizing(ls, m, k, end, c + 1, 2 * (left - count[c]))
  {
    var t := Taken(ls, m, Upto(ls, c));
    SizeStep(count, ls, m, k, end, c, left);
    SizeSign(left - count[c], Share(m, c), end, t);
    SizeNext(m, c, left - count[c], end - t);
    SizingSeal(9, ls, m, k, end, c + 1, 2 * (left - count[c]));
  }

  lemma SizeStart(ls: seq<int>, m: nat, root: nat, k: nat, end: int)
    requires Rising(ls, m) && k < |ls| && root < ls[k] && end == Taken(ls, m, k) + Share(m, root)
    ensures Sizing(ls, m, k, end, ls[k], Pow2(ls[k] - root))
  {
    assert Share(m, root) == Pow2(ls[k] - root) * Share(m, ls[k]) by { ShareSplit(m, root, ls[k]); }
    assert Reached(ls, k, ls[k]) == k;
    SizingSeal(9, ls, m, k, end, ls[k], Pow2(ls[k] - root));
  }

  /** The look ahead over the counts that sizes a new sub-table. */
  method TableBits(count: seq<int>, len: nat, root: nat, max: nat, ghost ls: seq<int>, ghost k: nat, ghost end: int) returns (curr: nat)
    requires Rising(ls, max) && k < |ls| && Counts(count, ls, max, k) && root < len == ls[k]
    requires end == Taken(ls, max, k) + Share(max, root)
    ensures 1 <= curr && Reaching(ls, max, k, end, root + curr)
  {
    curr := len - root;
    var left := Pow2(curr);
    SizeStart(ls, max, root, k, end);
    ghost var c := len;
    while curr + root < max
      invariant len <= c == root + curr <= max && Sizing(ls, max, k, end, c, left)
      invariant c > len ==> Taken(ls, max, Upto(ls, c - 1)) < end
      decreases max - c
    {
      SizeTurn(count, ls, max, k, end, c, left);
      left := left - count[curr + root];
      if left <= 0 {
        break;
      }
      curr, left, c := curr + 1, 2 * left, c + 1;
    }
  }

  // ---- What that size means ----

  /** The k-th word opens its cell, and the words that begin before end are those of the cell. */
  ghost predicate Spans(ls: seq<int>, m: nat, root: nat, k: nat, end: int)
    requires k < |ls| && root <= ls[k]
  {
    forall j: nat :: SpansAt(ls, m, root, k, end, j)
  }

  ghost predicate SpansAt(ls: seq<int>, m: nat, root: nat, k: nat, end: int, j: nat)
    requires k < |ls| && root <= ls[k]
  {
    j < |ls| && root <= ls[j] ==> (Cell(ls, root, j) == Cell(ls, root, k) <==> Taken(ls, m, k) <= Taken(ls, m, j) < end)
  }

  lemma OpensSpans(ls: seq<int>, m: nat, root: nat, k: nat, end: int)
    requires Ordered(ls, m) && k < |ls| && root <= ls[k]
    requires Taken(ls, m, k) == Cell(ls, root, k) * Share(m, root) && end == Taken(ls, m, k) + Share(m, root)
    ensures Spans(ls, m, root, k, end)
  {
    forall j: nat ensures SpansAt(ls, m, root, k, end, j) {
      if j < |ls| && root <= ls[j] {
        CellHolds(ls, m, root, j);
        InSameCell(Taken(ls, m, j), Cell(ls, root, j), Cell(ls, root, k), Share(m, root), Taken(ls, m, k), end);
      }
    }
  }

  lemma InSameCell(v: int, c: int, d: int, s: int, start: int, end: int)
    requires s > 0 && InCell(v, c, s) && start == d * s && end == start + s
    ensures c == d <==> start <= v < end
  {
    TimesSum(d, 1, s);
    TimesSum(c, 1, s);
    CellOf(v, c, v - c * s, s, d);
  }

  lemma ReachingRoomy(ls: seq<int>, m: nat, root: nat, k: nat, end: int, curr: nat)
    requires Ordered(ls, m) && k < |ls| && root < ls[k] && Reaching(ls, m, k, end, root + curr) && Spans(ls, m, root, k, end)
    ensures Roomy(ls, root, curr, k)
  {
    forall j: nat | k <= j < |ls| && root <= ls[j] && Cell(ls, root, j) == Cell(ls, root, k) ensures ls[j] <= root + curr {
      var c := root + curr;
      assert SpansAt(ls, m, root, k, end, j);
      UptoIs(ls, m, c, j);
      if ls[j] > c { TakenMonotone(ls, m, Upto(ls, c), j); }
    }
  }

  /** The longest word of cell c among the first n. */
  ghost function Longest(ls: seq<int>, root: nat, c: nat, n: nat): nat
    requires n <= |ls|
  {
    if n == 0 then 0
    else
      var l := Longest(ls, root, c, n - 1);
      if root <= ls[n - 1] && Cell(ls, root, n - 1) == c && ls[n - 1] > l then ls[n - 1] else l
  }

  lemma {:induction false} LongestIs(ls: seq<int>, root: nat, c: nat, n: nat, d: int)
    requires n <= |ls| && d >= 0
    requires forall j: nat :: j < n && root <= ls[j] && Cell(ls, root, j) == c ==> ls[j] <= d
    ensures Longest(ls, root, c, n) <= d
    ensures forall j: nat :: j < n && root <= ls[j] && Cell(ls, root, j) == c ==> ls[j] <= Longest(ls, root, c, n)
    decreases n
  {
    if n > 0 { LongestIs(ls, root, c, n - 1, d); }
  }

  lemma NotBefore(ls: seq<int>, m: nat, root: nat, k: nat, end: int, j: nat)
    requires Rising(ls, m) && j < |ls| && k < |ls| && root < ls[k] && Spans(ls, m, root, k, end)
    requires root <= ls[j] && Cell(ls, root, j) == Cell(ls, root, k)
    ensures k <= j
  {
    assert SpansAt(ls, m, root, k, end, j);
    if j < k { TakenMonotone(ls, m, j + 1, k); }
  }

  lemma NoneLonger(ls: seq<int>, m: nat, root: nat, k: nat, end: int, curr: nat)
    requires Rising(ls, m) && k < |ls| && root < ls[k] && Roomy(ls, root, curr, k) && Spans(ls, m, root, k, end)
    ensures Longest(ls, root, Cell(ls, root, k), |ls|) <= root + curr
    ensures forall j: nat :: k <= j < |ls| && root <= ls[j] && Cell(ls, root, j) == Cell(ls, root, k) ==>
                               ls[j] <= Longest(ls, root, Cell(ls, root, k), |ls|)
  {
    forall j: nat | j < |ls| && root <= ls[j] && Cell(ls, root, j) == Cell(ls, root, k) ensures ls[j] <= root + curr {
      NotBefore(ls, m, root, k, end, j);
    }
    LongestIs(ls, root, Cell(ls, root, k), |ls|, root + curr);
  }

  /** A word of the greatest length that the sub-table has room for. */
  lemma Deep(ls: seq<int>, m: nat, root: nat, k: nat, end: int, c: int) returns (j: nat)
    requires Rising(ls, m) && Taken(ls, m, |ls|) >= end && k < |ls| && root < ls[k] && Reaching(ls, m, k, end, c) && Spans(ls, m, root, k, end)
    ensures k <= j < |ls| && root <= ls[j] && Cell(ls, root, j) == Cell(ls, root, k) && ls[j] >= c
  {
    if c == ls[k] {
      j := k;
    } else {
      j := Upto(ls, c - 1);
      UptoIs(ls, m, c - 1, j);
      UptoIs(ls, m, c - 1, k);
      TakenMonotone(ls, m, k, j);
      assert SpansAt(ls, m, root, k, end, j);
    }
  }

  /** In a complete code the sub-table is as deep as the longest word of its cell. */
  lemma ReachingIsLongest(ls: seq<int>, m: nat, root: nat, k: nat, end: int, curr: nat)
    requires Ordered(ls, m) && Taken(ls, m, |ls|) >= end && k < |ls| && root < ls[k] && Reaching(ls, m, k, end, root + curr)
    requires Spans(ls, m, root, k, end)
    ensures Longest(ls, root, Cell(ls, root, k), |ls|) == root + curr
  {
    ReachingRoomy(ls, m, root, k, end, curr);
    NoneLonger(ls, m, root, k, end, curr);
    var j := Deep(ls, m, root, k, end, root + curr);
  }

  // ---- All tables together ----

  /** The k-th word is long and the first of its cell. */
  ghost predicate Opens(ls: seq<int>, root: nat, k: nat)
    requires k < |ls|
  {
    ls[k] > root && (k == 0 || ls[k - 1] <= root || Cell(ls, root, k - 1) != Cell(ls, root, k))
  }

  /** The size of the root table and of the sub-tables that the first n words open. */
  ghost function Space(ls: seq<int>, root: nat, n: nat): (s: nat)
    requires n <= |ls|
    ensures s >= Pow2(root)
  {
    if n == 0 then Pow2(root)
    else Space(ls, root, n - 1) + if Opens(ls, root, n - 1) then Share(Longest(ls, root, Cell(ls, root, n - 1), |ls|), root) else 0
  }

  lemma {:induction false} SpaceMonotone(ls: seq<int>, root: nat, j: nat, k: nat)
    requires j <= k <= |ls|
    ensures Space(ls, root, j) <= Space(ls, root, k)
    decreases k
  {
    if j < k { SpaceMonotone(ls, root, j, k - 1); }
  }

  lemma SpaceSame(ls: seq<int>, root: nat, k: nat)
    requires k < |ls| && !Opens(ls, root, k)
    ensures Space(ls, root, k + 1) == Space(ls, root, k)
  {
  }

  lemma SpaceMore(ls: seq<int>, root: nat, k: nat, curr: nat)
    requires k < |ls| && Opens(ls, root, k) && Longest(ls, root, Cell(ls, root, k), |ls|) == root + curr
    ensures Space(ls, root, k + 1) == Space(ls, root, k) + Pow2(curr)
  {
  }

  /** Moving on from the k-th word to the next. */
  lemma CountsNext(count: seq<int>, ls: seq<int>, m: nat, k: nat)
    requires Rising(ls, m) && k < |ls| && Counts(count, ls, m, k) && ls[|ls| - 1] == m
    ensures count[ls[k]] >= 1 && (count[ls[k]] == 1 && ls[k] == m <==> k + 1 == |ls|)
    ensures k + 1 < |ls| ==> (count[ls[k]] == 1 <==> ls[k + 1] > ls[k])
    ensures k + 1 < |ls| ==> Counts(count[ls[k] := count[ls[k]] - 1], ls, m, k + 1)
  {
    var c := ls[k];
    UptoIs(ls, m, c, k);
    if k + 1 < |ls| {
      UptoIs(ls, m, c, k + 1);
      var d := ls[k + 1];
      UptoIs(ls, m, d, k + 1);
      UptoIs(ls, m, d - 1, k);
      UptoIs(ls, m, d - 1, k + 1);
      assert d > c ==> Left(count, ls, d);
      var count' := count[c := count[c] - 1];
      forall e | d < e <= m ensures Left(count', ls, e) {
        assert Left(count, ls, e);
      }
    }
  }
}
