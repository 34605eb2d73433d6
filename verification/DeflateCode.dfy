/** The canonical Huffman code of section 3.2.2 of RFC 1951, and the same code as a rising list of
    words, which is the order inflate_table works in. Length 0 means a symbol is not in use. */
module DeflateCode {
  import opened Sequences
  import opened Bits
  import opened CodeWords
  import opened WordOrder
  import opened TableSizes

  const MaxBits: nat := 15

  /** How many codes have length l. */
  ghost function LengthCount(lens: seq<int>, l: int): nat { if l <= 0 then 0 else Count(lens, l) }

  /** The smallest code of length l. */
  ghost function NextCode(lens: seq<int>, l: int): nat
    decreases l
  {
    if l <= 0 then 0 else 2 * (NextCode(lens, l - 1) + LengthCount(lens, l - 1))
  }

  /** Symbol s has a code. */
  ghost predicate Coded(lens: seq<int>, s: nat) { s < |lens| && lens[s] > 0 }

  ghost function SymbolCode(lens: seq<int>, s: nat): nat
    requires Coded(lens, s)
  {
    NextCode(lens, lens[s]) + Count(lens[..s], lens[s])
  }

  ghost function CodeWord(lens: seq<int>, s: nat): (w: seq<bool>)
    requires Coded(lens, s)
    ensures |w| == lens[s]
  {
    WordOf(SymbolCode(lens, s), lens[s])
  }

  /** How many strings of l bits begin with a code of l bits or fewer. */
  ghost function Filled(lens: seq<int>, l: int): nat { NextCode(lens, l) + LengthCount(lens, l) }

  /** The Kraft sum, in units of one code of 15 bits. */
  ghost function Kraft(lens: seq<int>): nat {
    if |lens| == 0 then 0
    else Kraft(lens[..|lens| - 1]) + (var l := lens[|lens| - 1]; if l > 0 then Share(MaxBits, l) else 0)
  }

  lemma {:induction false} FilledMore(lens: seq<int>, l: nat)
    requires |lens| > 0
    ensures var x := lens[|lens| - 1]; Filled(lens, l) == Filled(lens[..|lens| - 1], l) + (if x > 0 then Share(l, x) else 0)
    decreases l
  {
    var x := lens[|lens| - 1];
    if l > 0 {
      FilledMore(lens, l - 1);
      assert NextCode(lens, l) == 2 * Filled(lens, l - 1);
      assert NextCode(lens[..|lens| - 1], l) == 2 * Filled(lens[..|lens| - 1], l - 1);
      if 0 < x < l { assert Pow2(l - x) == 2 * Pow2(l - 1 - x); }
    }
  }

  lemma {:induction false} FilledNone(l: nat)
    ensures Filled([], l) == 0
  {
    if l > 0 { FilledNone(l - 1); }
  }

  /** The strings that the codes fill are the Kraft sum. */
  lemma {:induction false} FilledIsKraft(lens: seq<int>)
    ensures Filled(lens, MaxBits) == Kraft(lens)
  {
    if |lens| == 0 {
      FilledNone(MaxBits);
    } else {
      FilledIsKraft(lens[..|lens| - 1]);
      FilledMore(lens, MaxBits);
    }
  }

  lemma FilledNext(lens: seq<int>, l: nat)
    ensures Filled(lens, l + 1) == 2 * Filled(lens, l) + Count(lens, l + 1)
  {
  }

  /** Once over-filled, always over-filled. */
  lemma {:induction false} OverFilled(lens: seq<int>, l: nat, m: nat)
    requires l <= m && Filled(lens, l) > Pow2(l)
    ensures Filled(lens, m) > Pow2(m)
    decreases m
  {
    if l < m {
      OverFilled(lens, l, m - 1);
      FilledNext(lens, m - 1);
    }
  }

  /** Lengths that do not occur only double what is filled. */
  lemma {:induction false} FilledDoubles(lens: seq<int>, l: nat, m: nat)
    requires l <= m && forall c :: l < c <= m ==> Count(lens, c) == 0
    ensures Filled(lens, m) == Filled(lens, l) * Pow2(m - l)
    decreases m
  {
    if l < m {
      FilledDoubles(lens, l, m - 1);
      FilledNext(lens, m - 1);
      MulSwap(Filled(lens, l), Pow2(m - 1 - l));
    }
  }

  // ---- The lengths in rising order ----

  ghost function Copies(n: nat, l: int): (s: seq<int>)
    ensures |s| == n
  {
    if n == 0 then [] else Copies(n - 1, l) + [l]
  }

  lemma {:induction false} CopiesAre(n: nat, l: int, k: nat)
    requires k < n
    ensures Copies(n, l)[k] == l
  {
    if k < n - 1 { CopiesAre(n - 1, l, k); }
  }

  /** The lengths up to l, in rising order. */
  ghost function Sorted(lens: seq<int>, l: nat): seq<int> {
    if l == 0 then [] else Sorted(lens, l - 1) + Copies(Count(lens, l), l)
  }

  lemma {:induction false} SortedPrefix(lens: seq<int>, l: nat, m: nat)
    requires l <= m
    ensures Sorted(lens, l) <= Sorted(lens, m)
    decreases m
  {
    if l < m { SortedPrefix(lens, l, m - 1); }
  }

  lemma RisingThen(a: seq<int>, b: seq<int>, l: nat, m: nat)
    requires Rising(a, m) && (forall k :: 0 <= k < |a| ==> a[k] <= l) && (forall k :: 0 <= k < |b| ==> b[k] == l) && 1 <= l <= m
    ensures Rising(a + b, m) && forall k :: 0 <= k < |a + b| ==> (a + b)[k] <= l
  {
    var s := a + b;
    forall k | 0 <= k < |s| ensures 1 <= s[k] <= m && s[k] <= l && (k >= |a| ==> s[k] == l) {
      if k >= |a| { assert s[k] == b[k - |a|]; }
    }
    forall i, j | 0 <= i <= j < |s| ensures s[i] <= s[j] {
      if j < |a| { assert s[i] == a[i] && s[j] == a[j]; }
    }
  }

  lemma {:induction false} SortedRises(lens: seq<int>, l: nat, m: nat)
    requires l <= m
    ensures Rising(Sorted(lens, l), m) && forall k :: 0 <= k < |Sorted(lens, l)| ==> Sorted(lens, l)[k] <= l
  {
    if l > 0 {
      SortedRises(lens, l - 1, m);
      var b := Copies(Count(lens, l), l);
      forall k | 0 <= k < |b| ensures b[k] == l { CopiesAre(|b|, l, k); }
      RisingThen(Sorted(lens, l - 1), b, l, m);
    }
  }

  /** The lengths l stand between those below and those above. */
  lemma SortedAt(lens: seq<int>, m: nat, l: nat, k: nat)
    requires 1 <= l <= m && |Sorted(lens, l - 1)| <= k < |Sorted(lens, l)|
    ensures |Sorted(lens, l)| <= |Sorted(lens, m)| && Sorted(lens, m)[k] == l
  {
    SortedPrefix(lens, l, m);
    CopiesAre(Count(lens, l), l, k - |Sorted(lens, l - 1)|);
  }

  lemma SortedSize(lens: seq<int>, l: nat)
    requires l >= 1
    ensures |Sorted(lens, l)| == |Sorted(lens, l - 1)| + Count(lens, l)
  {
  }

  lemma {:induction false} SortedLength(lens: seq<int>, l: nat, k: nat) returns (c: nat)
    requires k < |Sorted(lens, l)|
    ensures 1 <= c <= l && |Sorted(lens, c - 1)| <= k < |Sorted(lens, c)|
  {
    if k < |Sorted(lens, l - 1)| { c := SortedLength(lens, l - 1, k); } else { c := l; }
  }

  lemma UptoSorted(lens: seq<int>, m: nat, c: nat)
    requires c <= m
    ensures Upto(Sorted(lens, m), c) == |Sorted(lens, c)|
  {
    var ls, n := Sorted(lens, m), |Sorted(lens, c)|;
    SortedPrefix(lens, c, m);
    SortedRises(lens, m, m);
    SortedRises(lens, c, m);
    if n > 0 { UptoIs(ls, m, c, n - 1); }
    if n < |ls| {
      var d := SortedLength(lens, m, n);
      if d <= c { SortedPrefix(lens, d, c); }
      SortedAt(lens, m, d, n);
      UptoIs(ls, m, c, n);
    }
  }

  // ---- Symbols and places in that order ----

  /** Where a symbol stands: after all shorter ones and the earlier ones of its length. */
  ghost function PlaceOf(lens: seq<int>, s: nat): nat
    requires Coded(lens, s)
  {
    |Sorted(lens, lens[s] - 1)| + Count(lens[..s], lens[s])
  }

  lemma PlaceBound(lens: seq<int>, m: nat, s: nat)
    requires Coded(lens, s) && lens[s] <= m
    ensures PlaceOf(lens, s) < |Sorted(lens, lens[s])| <= |Sorted(lens, m)| && Sorted(lens, m)[PlaceOf(lens, s)] == lens[s]
  {
    CountNext(lens, s, lens[s]);
    CountMonotone(lens, s + 1, |lens|, lens[s]);
    assert lens[..|lens|] == lens;
    SortedSize(lens, lens[s]);
    SortedAt(lens, m, lens[s], PlaceOf(lens, s));
  }

  lemma PlaceTaken(lens: seq<int>, m: nat, k: nat) returns (s: nat)
    requires k < |Sorted(lens, m)|
    ensures Coded(lens, s) && PlaceOf(lens, s) == k && lens[s] == Sorted(lens, m)[k] <= m
  {
    var c := SortedLength(lens, m, k);
    SortedAt(lens, m, c, k);
    SortedSize(lens, c);
    s := Nth(lens, c, k - |Sorted(lens, c - 1)|);
  }

  /** Two symbols do not share a place. */
  lemma PlaceOnce(lens: seq<int>, m: nat, s: nat, t: nat)
    requires Coded(lens, s) && Coded(lens, t) && lens[s] <= m && lens[t] <= m && s < t
    ensures PlaceOf(lens, s) != PlaceOf(lens, t)
  {
    PlaceBound(lens, m, s);
    PlaceBound(lens, m, t);
    CountNext(lens, s, lens[s]);
    CountMonotone(lens, s + 1, t, lens[s]);
  }

  lemma SortedRun(lens: seq<int>, m: nat, l: nat)
    requires 1 <= l <= m
    ensures Run(Sorted(lens, m), l, |Sorted(lens, l - 1)|, |Sorted(lens, l)|)
  {
    SortedPrefix(lens, l, m);
    SortedPrefix(lens, l - 1, l);
    forall i | |Sorted(lens, l - 1)| <= i < |Sorted(lens, l)| ensures Sorted(lens, m)[i] == l { SortedAt(lens, m, l, i); }
  }

  /** The words up to length l take as many strings as they fill. */
  lemma {:induction false} TakenSorted(lens: seq<int>, m: nat, l: nat)
    requires l <= m
    ensures |Sorted(lens, l)| <= |Sorted(lens, m)| && Taken(Sorted(lens, m), m, |Sorted(lens, l)|) == Filled(lens, l) * Share(m, l)
  {
    SortedPrefix(lens, l, m);
    if l > 0 {
      var ls, i, j := Sorted(lens, m), |Sorted(lens, l - 1)|, |Sorted(lens, l)|;
      TakenSorted(lens, m, l - 1);
      SortedSize(lens, l);
      SortedRun(lens, m, l);
      TakenRun(ls, m, l, i, j);
      ShareSplit(m, l - 1, l);
      FilledNext(lens, l - 1);
      Doubled(Filled(lens, l - 1), Count(lens, l), Share(m, l));
    }
  }

  lemma Doubled(f: nat, c: nat, s: nat)
    ensures f * (2 * s) + c * s == (2 * f + c) * s
  {
    TimesSum(2 * f, c, s);
    MulSwap(f, s);
    TimesAssoc(2, f, s);
  }

  /** The word at a symbol's place is the code of the symbol. */
  lemma PlaceCode(lens: seq<int>, m: nat, s: nat)
    requires Coded(lens, s) && lens[s] <= m
    ensures PlaceOf(lens, s) < |Sorted(lens, m)| && CodeAt(Sorted(lens, m), PlaceOf(lens, s)) == SymbolCode(lens, s)
  {
    var ls, l, k := Sorted(lens, m), lens[s], PlaceOf(lens, s);
    PlaceBound(lens, m, s);
    SortedRises(lens, m, m);
    SortedRun(lens, m, l);
    var i := |Sorted(lens, l - 1)|;
    assert Taken(ls, m, k) == CodeAt(ls, k) * Share(m, l) by { TakenIsCode(ls, m, k); }
    assert Taken(ls, m, i) == NextCode(lens, l) * Share(m, l) by {
      TakenSorted(lens, m, l - 1);
      ShareSplit(m, l - 1, l);
      Doubled(Filled(lens, l - 1), 0, Share(m, l));
    }
    TakenRun(ls, m, l, i, k);
    SameFactor(CodeAt(ls, k), NextCode(lens, l), k - i, Share(m, l));
  }

  lemma SameFactor(c: int, n: int, r: int, s: int)
    requires s > 0 && c * s == n * s + r * s
    ensures c == n + r
  {
    TimesSum(n, r, s);
    TimesCancel(c, n + r, s);
    TimesCancel(n + r, c, s);
  }
}
