/** inflate_table as a whole (inftrees.c): counts the lengths, checks them, sorts the symbols and fills
    the tables. What the tables decode is stated against the code of RFC 1951. */
module TableBuilder {
  import opened Sequences
  import opened Bits
  import opened CodeWords
  import opened WordOrder
  import opened TableFill
  import opened TableSizes
  import opened DeflateCode
  import opened InflateTable

  ghost predicate Lengths(lens: seq<int>) { InRange(lens, MaxBits + 1) }

  /** count holds how often each length occurs. */
  ghost predicate Counted(count: seq<int>, lens: seq<int>) {
    |count| == MaxBits + 1 && forall l :: 0 <= l <= MaxBits ==> CountedAt(count, lens, l)
  }

  ghost predicate CountedAt(count: seq<int>, lens: seq<int>, l: int) { 0 <= l < |count| && count[l] == Count(lens, l) }

  method CountLengths(lens: seq<int>) returns (count: array<int>)
    requires Lengths(lens)
    ensures fresh(count) && Counted(count[..], lens)
  {
    count := new int[MaxBits + 1](_ => 0);
    for sym := 0 to |lens|
      invariant count.Length == MaxBits + 1 && fresh(count) && Counted(count[..], lens[..sym])
    {
      ghost var was := count[..];
      count[lens[sym]] := count[lens[sym]] + 1;
      CountedMore(was, count[..], lens, sym);
    }
    assert lens[..|lens|] == lens;
  }

  lemma CountedMore(count: seq<int>, count': seq<int>, lens: seq<int>, i: int)
    requires 0 <= i < |lens| && Lengths(lens) && Counted(count, lens[..i]) && count' == count[lens[i] := count[lens[i]] + 1]
    ensures Counted(count', lens[..i + 1])
  {
    var more := lens[..i + 1];
    forall l | 0 <= l <= MaxBits ensures CountedAt(count', more, l) {
      assert CountedAt(count, lens[..i], l);
      CountNext(lens, i, l);
    }
  }

  /** The greatest length in use, or 0. */
  method MaxLength(count: seq<int>, ghost lens: seq<int>) returns (max: nat)
    requires Counted(count, lens)
    ensures max <= MaxBits && (forall l :: max < l <= MaxBits ==> Count(lens, l) == 0) && (max > 0 ==> Count(lens, max) > 0)
  {
    max := MaxBits;
    while max >= 1
      invariant max <= MaxBits && forall l :: max < l <= MaxBits ==> Count(lens, l) == 0
    {
      assert CountedAt(count, lens, max);
      if count[max] != 0 {
        break;
      }
      max := max - 1;
    }
  }

  /** The least length in use. */
  method MinLength(count: seq<int>, max: nat, ghost lens: seq<int>) returns (min: nat)
    requires Counted(count, lens) && 1 <= max <= MaxBits && Count(lens, max) > 0
    ensures 1 <= min <= max && Count(lens, min) > 0 && forall l :: 1 <= l < min ==> Count(lens, l) == 0
  {
    min := 1;
    while min < max
      invariant 1 <= min <= max && forall l :: 1 <= l < min ==> Count(lens, l) == 0
    {
      assert CountedAt(count, lens, min);
      if count[min] != 0 {
        break;
      }
      min := min + 1;
    }
  }

  /** How many codes of 15 bits are left, or a negative number if the lengths ask for too many. */
  method CodesLeft(count: seq<int>, ghost lens: seq<int>) returns (left: int)
    requires Counted(count, lens)
    ensures left < 0 <==> Kraft(lens) > Pow2(MaxBits)
    ensures left >= 0 ==> left == Pow2(MaxBits) - Kraft(lens)
  {
    left := 1;
    var len := 1;
    while len <= MaxBits
      invariant 1 <= len <= MaxBits + 1 && left == Pow2(len - 1) - Filled(lens, len - 1) && left >= 0
    {
      assert CountedAt(count, lens, len);
      FilledNext(lens, len - 1);
      left := 2 * left - count[len];
      if left < 0 {
        OverKraft(lens, len);
        return;
      }
      len := len + 1;
    }
    FilledAll(lens, len - 1);
  }

  lemma OverKraft(lens: seq<int>, l: nat)
    requires l <= MaxBits && Filled(lens, l) > Pow2(l)
    ensures Kraft(lens) > Pow2(MaxBits)
  {
    OverFilled(lens, l, MaxBits);
    FilledIsKraft(lens);
  }

  lemma FilledAll(lens: seq<int>, l: nat)
    requires l == MaxBits
    ensures Filled(lens, l) == Kraft(lens)
  {
    FilledIsKraft(lens);
  }

  // ---- Sorting the symbols ----

  /** The symbols below n stand at their places. */
  ghost predicate Placing(work: seq<int>, lens: seq<int>, n: nat) {
    forall s: nat :: s < n && Coded(lens, s) ==> PlaceOf(lens, s) < |work| && work[PlaceOf(lens, s)] == s
  }

  ghost predicate Offsets(offs: seq<int>, lens: seq<int>, n: nat)
    requires n <= |lens|
  {
    |offs| == MaxBits + 1 && forall l :: 1 <= l <= MaxBits ==> OffsetAt(offs, lens, n, l)
  }

  ghost predicate OffsetAt(offs: seq<int>, lens: seq<int>, n: nat, l: nat)
    requires n <= |lens|
  {
    1 <= l < |offs| && offs[l] == |Sorted(lens, l - 1)| + Count(lens[..n], l)
  }

  /** Where the first symbol of each length goes. */
  method FirstOffsets(count: seq<int>, ghost lens: seq<int>) returns (offs: array<int>)
    requires Counted(count, lens)
    ensures fresh(offs) && Offsets(offs[..], lens, 0)
  {
    offs := new int[MaxBits + 1](_ => 0);
    for len := 1 to MaxBits
      invariant offs.Length == MaxBits + 1 && fresh(offs) && forall l: nat :: 1 <= l <= len ==> OffsetAt(offs[..], lens, 0, l)
    {
      assert OffsetAt(offs[..], lens, 0, len) && CountedAt(count, lens, len);
      SortedSize(lens, len);
      ghost var was := offs[..];
      offs[len + 1] := offs[len] + count[len];
      forall l: nat | 1 <= l <= len + 1 ensures OffsetAt(offs[..], lens, 0, l) {
        if l <= len { assert OffsetAt(was, lens, 0, l); }
      }
    }
  }

  lemma PlaceNext(work: seq<int>, work': seq<int>, offs: seq<int>, offs': seq<int>, lens: seq<int>, n: nat)
    requires Lengths(lens) && n < |lens| && lens[n] != 0 && Placing(work, lens, n) && Offsets(offs, lens, n)
    requires 0 <= offs[lens[n]] < |work| && work' == work[offs[lens[n]] := n] && offs' == offs[lens[n] := offs[lens[n]] + 1]
    ensures Placing(work', lens, n + 1) && Offsets(offs', lens, n + 1)
  {
    assert OffsetAt(offs, lens, n, lens[n]);
    forall s: nat | s < n + 1 && Coded(lens, s) ensures PlaceOf(lens, s) < |work'| && work'[PlaceOf(lens, s)] == s {
      if s < n { PlaceOnce(lens, MaxBits, s, n); }
    }
    var next := n + 1;
    forall l: nat | 1 <= l <= MaxBits ensures OffsetAt(offs', lens, next, l) {
      assert OffsetAt(offs, lens, n, l);
      CountNext(lens, n, l);
    }
  }

  lemma PlaceSkip(work: seq<int>, offs: seq<int>, lens: seq<int>, n: nat)
    requires n < |lens| && lens[n] == 0 && Placing(work, lens, n) && Offsets(offs, lens, n)
    ensures Placing(work, lens, n + 1) && Offsets(offs, lens, n + 1)
  {
    var next := n + 1;
    forall l: nat | 1 <= l <= MaxBits ensures OffsetAt(offs, lens, next, l) {
      assert OffsetAt(offs, lens, n, l);
      CountNext(lens, n, l);
    }
  }

  lemma {:induction false} SortedFits(lens: seq<int>, l: nat)
    ensures |Sorted(lens, l)| + Count(lens, 0) == Sequences.Below(lens, l + 1)
  {
    if l > 0 { SortedFits(lens, l - 1); }
  }

  /** There are no more places than symbols. */
  lemma PlaceFits(lens: seq<int>, s: nat)
    requires Lengths(lens) && Coded(lens, s)
    ensures PlaceOf(lens, s) < |lens|
  {
    PlaceBound(lens, MaxBits, s);
    SortedCount(lens, MaxBits);
  }

  /** Sorts the symbols by length, and by number within a length. */
  method SortSymbols(lens: seq<int>, count: seq<int>, work: array<int>)
    requires Lengths(lens) && Counted(count, lens) && |lens| <= work.Length
    modifies work
    ensures Placing(work[..], lens, |lens|)
  {
    var offs := FirstOffsets(count, lens);
    for sym := 0 to |lens|
      invariant offs.Length == MaxBits + 1 && Placing(work[..], lens, sym) && Offsets(offs[..], lens, sym)
    {
      if lens[sym] != 0 {
        assert OffsetAt(offs[..], lens, sym, lens[sym]);
        PlaceFits(lens, sym);
        ghost var w, o := work[..], offs[..];
        work[offs[lens[sym]]] := sym;
        offs[lens[sym]] := offs[lens[sym]] + 1;
        PlaceNext(w, work[..], o, offs[..], lens, sym);
      } else {
        PlaceSkip(work[..], offs[..], lens, sym);
      }
    }
  }

  // ---- The greatest and the least length ----

  ghost function LongestLen(lens: seq<int>): nat {
    if |lens| == 0 then 0
    else var m := LongestLen(lens[..|lens| - 1]); if lens[|lens| - 1] > m then lens[|lens| - 1] else m
  }

  /** 0 if no length is in use. */
  ghost function ShortestLen(lens: seq<int>): nat {
    if |lens| == 0 then 0
    else
      var m, l := ShortestLen(lens[..|lens| - 1]), lens[|lens| - 1];
      if l > 0 && (m == 0 || l < m) then l else m
  }

  lemma {:induction false} LongestIsMax(lens: seq<int>, l: nat)
    requires Lengths(lens)
    ensures var m := LongestLen(lens); (l > m ==> Count(lens, l) == 0) && (m > 0 ==> Count(lens, m) > 0) && m <= MaxBits
  {
    if |lens| > 0 {
      var a := lens[..|lens| - 1];
      LongestIsMax(a, l);
    }
  }

  lemma {:induction false} ShortestIsMin(lens: seq<int>, l: nat)
    requires Lengths(lens)
    ensures var m := ShortestLen(lens); (1 <= l < m ==> Count(lens, l) == 0) && (m > 0 ==> Count(lens, m) > 0)
    ensures ShortestLen(lens) == 0 && l >= 1 ==> Count(lens, l) == 0
  {
    if |lens| > 0 {
      var a := lens[..|lens| - 1];
      ShortestIsMin(a, l);
    }
  }

  /** The index bits of the root table, given what is asked for. */
  ghost function RootBits(lens: seq<int>, bits: nat): nat {
    var max, min := LongestLen(lens), ShortestLen(lens);
    var root := if bits > max then max else bits;
    if max == 0 then 1 else if root < min then min else root
  }

  /** The lengths in use run from min to max. */
  ghost predicate Spread(lens: seq<int>, min: nat, max: nat) {
    && 1 <= min <= max <= MaxBits && Count(lens, max) > 0 && Count(lens, min) > 0
    && (forall l :: max < l <= MaxBits ==> Count(lens, l) == 0) && (forall l :: 1 <= l < min ==> Count(lens, l) == 0)
  }

  lemma BoundsAre(lens: seq<int>, max: nat, min: nat)
    requires Lengths(lens) && Spread(lens, min, max)
    ensures LongestLen(lens) == max && ShortestLen(lens) == min
  {
    LongestIsMax(lens, max);
    ShortestIsMin(lens, min);
  }

  lemma NoneIs(lens: seq<int>)
    requires Lengths(lens) && forall l :: 0 < l <= MaxBits ==> Count(lens, l) == 0
    ensures LongestLen(lens) == 0
  {
    LongestIsMax(lens, 0);
  }

  // ---- What the tables decode ----

  ghost predicate Begins(lens: seq<int>, s: nat, b: seq<bool>) { Coded(lens, s) && CodeWord(lens, s) <= b }

  /** Whatever code b begins with, the lookup gives its symbol and length, and without one the
      invalid marker. */
  ghost predicate DecodesAt(tab: seq<Entry>, root: nat, kind: Kind, lens: seq<int>, b: seq<bool>) {
    && (forall s: nat :: Begins(lens, s, b) ==> s < Alphabet(kind) && Gives(tab, root, b, EntryFor(kind, s, lens[s])))
    && ((forall s: nat :: !Begins(lens, s, b)) ==> Gives(tab, root, b, Invalid()))
  }

  ghost predicate Decodes(tab: seq<Entry>, root: nat, kind: Kind, lens: seq<int>) {
    forall b: seq<bool> :: |b| >= MaxBits ==> DecodesAt(tab, root, kind, lens, b)
  }

  lemma GivesLonger(tab: seq<Entry>, root: nat, b: seq<bool>, n: nat, e: Entry)
    requires n <= |b| && Gives(tab, root, b[..n], e)
    ensures Gives(tab, root, b, e)
  {
    var a := b[..n];
    assert a[..root] == b[..root];
    var x := tab[Number(a[..root])];
    if IsLink(x) { assert a[x.bits..x.bits + x.op] == b[x.bits..x.bits + x.op]; }
  }

  /** A symbol's code is the word at its place. */
  lemma BeginsIsIn(lens: seq<int>, m: nat, s: nat, b: seq<bool>)
    requires Coded(lens, s) && lens[s] <= m <= |b| && Ordered(Sorted(lens, m), m)
    ensures PlaceOf(lens, s) < |Sorted(lens, m)| && (Begins(lens, s, b) <==> In(Sorted(lens, m), m, PlaceOf(lens, s), b[..m]))
  {
    PlaceCode(lens, m, s);
    PlaceBound(lens, m, s);
    InIsPrefix(Sorted(lens, m), m, PlaceOf(lens, s), b[..m]);
    var w := CodeWord(lens, s);
    assert w <= b <==> w <= b[..m];
  }

  /** Lengths that do not ask for too many codes give a prefix code: a string begins with one code at most. */
  lemma BeginsOnce(lens: seq<int>, s: nat, t: nat, b: seq<bool>)
    requires Lengths(lens) && Kraft(lens) <= Pow2(MaxBits) && |b| >= MaxBits && Begins(lens, s, b) && Begins(lens, t, b)
    ensures s == t
  {
    var m, ls := MaxBits, Sorted(lens, MaxBits);
    SortedRises(lens, m, m);
    AllTaken(lens, m);
    FilledAll(lens, m);
    BeginsIsIn(lens, m, s, b);
    BeginsIsIn(lens, m, t, b);
    InOnce(ls, m, PlaceOf(lens, s), PlaceOf(lens, t), b[..m]);
    if s < t { PlaceOnce(lens, m, s, t); } else if t < s { PlaceOnce(lens, m, t, s); }
  }

  /** The entries in the order of their words. */
  ghost predicate Items(kind: Kind, lens: seq<int>, m: nat, it: seq<Entry>) {
    |it| == |Sorted(lens, m)| && forall s: nat :: Coded(lens, s) ==> ItemAt(kind, lens, it, s)
  }

  ghost predicate ItemAt(kind: Kind, lens: seq<int>, it: seq<Entry>, s: nat)
    requires Coded(lens, s)
  {
    s < Alphabet(kind) && PlaceOf(lens, s) < |it| && it[PlaceOf(lens, s)] == EntryFor(kind, s, lens[s])
  }

  lemma GivenDecodes(tab: seq<Entry>, root: nat, kind: Kind, lens: seq<int>, m: nat, it: seq<Entry>, b: seq<bool>)
    requires Ordered(Sorted(lens, m), m) && m <= |b| && (forall s: nat :: Coded(lens, s) ==> lens[s] <= m)
    requires Items(kind, lens, m, it) && AllGiven(tab, root, it, Sorted(lens, m), m)
    ensures DecodesAt(tab, root, kind, lens, b)
  {
    var ls := Sorted(lens, m);
    forall s: nat | Begins(lens, s, b) ensures s < Alphabet(kind) && Gives(tab, root, b, EntryFor(kind, s, lens[s])) {
      BeginsIsIn(lens, m, s, b);
      assert ItemAt(kind, lens, it, s);
      assert Gives(tab, root, b[..m], it[PlaceOf(lens, s)]);
      GivesLonger(tab, root, b, m, it[PlaceOf(lens, s)]);
    }
    if forall s: nat :: !Begins(lens, s, b) {
      if Value(b[..m]) < Taken(ls, m, |ls|) {
        var k := InSome(ls, m, |ls|, b[..m]);
        var s := PlaceTaken(lens, m, k);
        BeginsIsIn(lens, m, s, b);
        assert false;
      }
      assert NotTaken(ls, m, b[..m]);
      GivesLonger(tab, root, b, m, Invalid());
    }
  }

  // ---- The whole ----

  /** The lengths ask for too many codes, or leave some unused that may not be: only a single code of
      one bit, for lengths or distances, may be incomplete. */
  ghost predicate BadLengths(kind: Kind, lens: seq<int>) {
    && LongestLen(lens) > 0
    && (Kraft(lens) > Pow2(MaxBits) || (Kraft(lens) < Pow2(MaxBits) && (kind == Codes || LongestLen(lens) > 1)))
  }

  /** The space that the tables take. */
  ghost function SpaceFor(lens: seq<int>, bits: nat): nat {
    var ls := Sorted(lens, LongestLen(lens));
    Space(ls, RootBits(lens, bits), |ls|)
  }

  /** What the rest of the method needs to know of good lengths. */
  lemma GoodIsSound(lens: seq<int>, max: nat, min: nat, root: nat)
    requires Spread(lens, min, max) && min <= root <= max
    requires Kraft(lens) <= Pow2(MaxBits) && (Kraft(lens) < Pow2(MaxBits) ==> max == 1)
    ensures var ls := Sorted(lens, max); Sound(ls, max, root) && ls[0] == min
  {
    var ls := Sorted(lens, max);
    SortedRises(lens, max, max);
    GoodTaken(lens, max);
    SortedSize(lens, max);
    SortedAt(lens, max, max, |ls| - 1);
    FirstLength(lens, max, min);
  }

  lemma GoodTaken(lens: seq<int>, max: nat)
    requires 1 <= max <= MaxBits && Kraft(lens) <= Pow2(MaxBits) && forall l :: max < l <= MaxBits ==> Count(lens, l) == 0
    ensures var ls := Sorted(lens, max); Taken(ls, max, |ls|) <= Pow2(max) && (Kraft(lens) == Pow2(MaxBits) ==> Taken(ls, max, |ls|) == Pow2(max))
  {
    AllTaken(lens, max);
    FilledFits(lens, max, MaxBits);
  }

  lemma AllTaken(lens: seq<int>, max: nat)
    ensures var ls := Sorted(lens, max); Taken(ls, max, |ls|) == Filled(lens, max)
  {
    assert Share(max, max) == 1;
    TakenSorted(lens, max, max);
  }

  lemma FilledFits(lens: seq<int>, l: nat, m: nat)
    requires l <= m == MaxBits && Kraft(lens) <= Pow2(m) && forall c :: l < c <= m ==> Count(lens, c) == 0
    ensures Filled(lens, l) <= Pow2(l) && (Kraft(lens) == Pow2(m) ==> Filled(lens, l) == Pow2(l))
  {
    if Filled(lens, l) > Pow2(l) { OverKraft(lens, l); }
    if Kraft(lens) == Pow2(m) { FilledUp(lens, l, m); }
  }

  lemma FilledUp(lens: seq<int>, l: nat, m: nat)
    requires l <= m == MaxBits && Kraft(lens) == Pow2(m) && forall c :: l < c <= m ==> Count(lens, c) == 0
    ensures Filled(lens, l) == Pow2(l)
  {
    assert Filled(lens, m) == Kraft(lens) by { FilledAll(lens, m); }
    assert Filled(lens, m) == Filled(lens, l) * Pow2(m - l) by { FilledDoubles(lens, l, m); }
    assert Pow2(m) == Pow2(l) * Pow2(m - l) by {
      Pow2Add(l, m - l);
      assert l + (m - l) == m;
    }
    SameProduct(Filled(lens, l), Pow2(l), Pow2(m - l));
  }

  lemma SameProduct(a: int, b: int, p: int)
    requires p > 0 && a * p == b * p
    ensures a == b
  {
    TimesCancel(a, b, p);
    TimesCancel(b, a, p);
  }

  lemma {:induction false} NoneShorter(lens: seq<int>, min: nat)
    requires forall l :: 1 <= l <= min ==> Count(lens, l) == 0
    ensures Sorted(lens, min) == []
  {
    if min > 0 { NoneShorter(lens, min - 1); }
  }

  lemma FirstLength(lens: seq<int>, max: nat, min: nat)
    requires 1 <= min <= max && Count(lens, min) > 0 && forall l :: 1 <= l < min ==> Count(lens, l) == 0
    ensures Sorted(lens, min - 1) == [] && |Sorted(lens, max)| > 0 && Sorted(lens, max)[0] == min
  {
    NoneShorter(lens, min - 1);
    SortedSize(lens, min);
    SortedAt(lens, max, min, 0);
  }

  lemma StartCounts(count: seq<int>, lens: seq<int>, max: nat, min: nat)
    requires Counted(count, lens) && 1 <= min <= max <= MaxBits && Sorted(lens, min - 1) == []
    requires |Sorted(lens, max)| > 0 && Sorted(lens, max)[0] == min
    ensures Counts(count, Sorted(lens, max), max, 0)
  {
    var ls := Sorted(lens, max);
    forall c | min <= c <= max ensures count[c] == Upto(ls, c) - Upto(ls, c - 1) {
      assert CountedAt(count, lens, c);
      UptoSorted(lens, max, c);
      UptoSorted(lens, max, c - 1);
      SortedSize(lens, c);
    }
    UptoSorted(lens, max, min - 1);
    forall c | min < c <= max ensures Left(count, ls, c) {
      assert count[c] == Upto(ls, c) - Upto(ls, c - 1);
    }
  }

  lemma WorkListed(kind: Kind, lens: seq<int>, m: nat, work: seq<int>) returns (it: seq<Entry>)
    requires Lengths(lens) && |lens| <= Alphabet(kind) && |lens| <= |work| && Placing(work, lens, |lens|) && m <= MaxBits
    requires forall s: nat :: Coded(lens, s) ==> lens[s] <= m
    ensures Listed(kind, lens, work, Sorted(lens, m), it) && Items(kind, lens, m, it)
  {
    var ls := Sorted(lens, m);
    SortedCount(lens, m);
    forall k: nat | k < |ls| ensures WorkAt(lens, work, ls, k) {
      var s := PlaceTaken(lens, m, k);
    }
    it := seq(|ls|, k requires 0 <= k < |ls| => if WorkAt(lens, work, ls, k) then EntryFor(kind, work[k], lens[work[k]]) else Invalid());
    forall k: nat | k < |ls| ensures ListedAt(kind, lens, work[k], ls[k], it[k]) {
      assert WorkAt(lens, work, ls, k);
    }
    forall s: nat | Coded(lens, s) ensures ItemAt(kind, lens, it, s) {
      PlaceBound(lens, m, s);
      assert WorkAt(lens, work, ls, PlaceOf(lens, s));
    }
  }

  ghost predicate WorkAt(lens: seq<int>, work: seq<int>, ls: seq<int>, k: nat) {
    k < |work| && k < |ls| && 0 <= work[k] < |lens| && lens[work[k]] == ls[k] > 0
  }

  lemma SortedCount(lens: seq<int>, m: nat)
    requires Lengths(lens) && m <= MaxBits
    ensures |Sorted(lens, m)| <= |lens|
  {
    SortedPrefix(lens, m, MaxBits);
    SortedFits(lens, MaxBits);
    BelowAll(lens, MaxBits + 1);
  }

  lemma {:induction false} LongestBounds(lens: seq<int>, s: nat)
    requires Coded(lens, s)
    ensures lens[s] <= LongestLen(lens)
  {
    if s < |lens| - 1 { LongestBounds(lens[..|lens| - 1], s); }
  }

  /** inflate_table: 0 with tables that decode the code of these lengths, -1 if the lengths are bad, 1
      if the space is not enough. */
  method BuildTable(kind: Kind, lens: seq<int>, table: array<Entry>, bits: nat, work: array<int>) returns (ret: int, root: nat, used: nat)
    requires Lengths(lens) && |lens| <= Alphabet(kind) && |lens| <= work.Length && table.Length >= 2
    requires match kind
             case Codes => (forall s: nat :: Coded(lens, s) ==> lens[s] <= bits) && Pow2(bits) <= table.Length
             case Lens => 852 <= table.Length
             case Dists => 592 <= table.Length
    modifies table, work
    ensures ret == 0 || ret == 1 || ret == -1
    ensures ret == -1 <==> BadLengths(kind, lens)
    ensures ret == 1 <==> !BadLengths(kind, lens) && LongestLen(lens) > 0 && !Enough(kind, SpaceFor(lens, bits))
    ensures ret == 0 ==> root == RootBits(lens, bits) && used == (if LongestLen(lens) > 0 then SpaceFor(lens, bits) else 2)
    ensures ret == 0 ==> Decodes(table[..], root, kind, lens)
  {
    var count := CountLengths(lens);
    var max := MaxLength(count[..], lens);
    root := if bits > max then max else bits;
    if max == 0 {
      NoneIs(lens);
      table[0], table[1] := Entry(64, 1, 0), Entry(64, 1, 0);
      NothingCoded(table[..], kind, lens);
      return 0, 1, 2;
    }
    var min := MinLength(count[..], max, lens);
    BoundsAre(lens, max, min);
    root := if root < min then min else root;
    var bad := CheckLengths(kind, count[..], max, lens);
    if bad {
      return -1, root, 0;
    }
    SortSymbols(lens, count[..], work);
    if kind == Codes { CodesFit(lens, max, bits); }
    ret, used := FillSorted(kind, lens, work[..], count, table, root, min, max, bits);
  }

  lemma CodesFit(lens: seq<int>, max: nat, bits: nat)
    requires Count(lens, max) > 0 && max > 0 && forall s: nat :: Coded(lens, s) ==> lens[s] <= bits
    ensures max <= bits && Pow2(max) <= Pow2(bits)
  {
    var s := Nth(lens, max, 0);
    assert Coded(lens, s);
    Pow2Monotone(max, bits);
  }

  /** Over-subscribed, or incomplete where that is not allowed. */
  method CheckLengths(kind: Kind, count: seq<int>, max: nat, ghost lens: seq<int>) returns (bad: bool)
    requires Counted(count, lens) && max == LongestLen(lens) > 0
    ensures bad <==> BadLengths(kind, lens)
  {
    var left := CodesLeft(count, lens);
    bad := left < 0 || (left > 0 && (kind == Codes || max != 1));
  }

  lemma NothingCoded(tab: seq<Entry>, kind: Kind, lens: seq<int>)
    requires LongestLen(lens) == 0 && |tab| >= 2 && tab[0] == tab[1] == Invalid()
    ensures Decodes(tab, 1, kind, lens)
  {
    forall b: seq<bool> | |b| >= MaxBits ensures DecodesAt(tab, 1, kind, lens, b) {
      forall s: nat ensures !Begins(lens, s, b) {
        if Coded(lens, s) { LongestBounds(lens, s); }
      }
      OneBit(b[..1]);
    }
  }

  /** The part after the symbols are sorted. */
  method FillSorted(kind: Kind, lens: seq<int>, work: seq<int>, count: array<int>, table: array<Entry>, root: nat, min: nat, max: nat, ghost bits: nat)
      returns (ret: int, used: nat)
    requires Lengths(lens) && |lens| <= Alphabet(kind) && |lens| <= |work| && Placing(work, lens, |lens|) && Counted(count[..], lens)
    requires Spread(lens, min, max) && min <= root <= max && root == RootBits(lens, bits)
    requires !BadLengths(kind, lens)
    requires (kind == Codes ==> max <= root) && Provided(kind, root) <= table.Length
    modifies table, count
    ensures ret == 0 || ret == 1
    ensures ret == 0 <==> Enough(kind, SpaceFor(lens, bits))
    ensures ret == 0 ==> used == SpaceFor(lens, bits) && Decodes(table[..], root, kind, lens)
  {
    ghost var ls := Sorted(lens, max);
    BoundsAre(lens, max, min);
    GoodIsSound(lens, max, min, root);
    FirstLength(lens, max, min);
    StartCounts(count[..], lens, max, min);
    AllBounded(lens);
    ghost var it := WorkListed(kind, lens, max, work);
    var ok;
    ok, used := FillTables(kind, lens, work, count, table, root, min, max, ls, it);
    if ok {
      forall b: seq<bool> | |b| >= MaxBits ensures DecodesAt(table[..], root, kind, lens, b) {
        GivenDecodes(table[..], root, kind, lens, max, it, b);
      }
      ret := 0;
    } else {
      ret := 1;
    }
  }

  lemma AllBounded(lens: seq<int>)
    ensures forall s: nat :: Coded(lens, s) ==> lens[s] <= LongestLen(lens)
  {
    forall s: nat | Coded(lens, s) ensures lens[s] <= LongestLen(lens) {
      LongestBounds(lens, s);
    }
  }
}
