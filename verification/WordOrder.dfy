/** The words of a canonical code in order: lengths never fall from one to the next, and each word
    takes its share of the strings of m bits, directly after the one before. */
module WordOrder {
  import opened Bits
  import opened CodeWords

  ghost predicate Rising(ls: seq<int>, m: nat) {
    && (forall k :: 0 <= k < |ls| ==> 1 <= ls[k] <= m)
    && (forall i, j :: 0 <= i <= j < |ls| ==> ls[i] <= ls[j])
  }

  /** How many strings of m bits begin with a word of l bits. */
  ghost function Share(m: nat, l: int): nat { if 0 <= l <= m then Pow2(m - l) else 0 }

  /** How many strings of m bits the first k words take. */
  ghost function Taken(ls: seq<int>, m: nat, k: nat): nat
    requires k <= |ls|
  {
    if k == 0 then 0 else Taken(ls, m, k - 1) + Share(m, ls[k - 1])
  }

  lemma {:induction false} TakenMonotone(ls: seq<int>, m: nat, j: nat, k: nat)
    requires j <= k <= |ls|
    ensures Taken(ls, m, j) <= Taken(ls, m, k)
    decreases k
  {
    if j < k { TakenMonotone(ls, m, j, k - 1); }
  }

  /** The k-th word as a number. */
  ghost function CodeAt(ls: seq<int>, k: nat): nat
    requires k < |ls|
  {
    if k == 0 then 0 else Shifted(CodeAt(ls, k - 1) + 1, ls[k] - ls[k - 1])
  }

  /** x with d zeros appended. */
  ghost function Shifted(x: nat, d: int): nat { if d <= 0 then x else 2 * Shifted(x, d - 1) }

  lemma {:induction false} ShiftedIs(x: nat, d: nat)
    ensures Shifted(x, d) == x * Pow2(d)
  {
    if d > 0 {
      ShiftedIs(x, d - 1);
      MulSwap(x, Pow2(d - 1));
    }
  }

  ghost function WordAt(ls: seq<int>, k: nat): (w: seq<bool>)
    requires k < |ls| && ls[k] >= 0
    ensures |w| == ls[k]
  {
    WordOf(CodeAt(ls, k), ls[k])
  }

  lemma ShareSplit(m: nat, a: nat, b: nat)
    requires a <= b <= m
    ensures Share(m, a) == Pow2(b - a) * Share(m, b)
  {
    Pow2Add(b - a, m - b);
    assert (b - a) + (m - b) == m - a;
  }

  lemma {:induction false} TakenIsCode(ls: seq<int>, m: nat, k: nat)
    requires Rising(ls, m) && k < |ls|
    ensures Taken(ls, m, k) == CodeAt(ls, k) * Share(m, ls[k]) && Taken(ls, m, k + 1) == (CodeAt(ls, k) + 1) * Share(m, ls[k])
  {
    if k > 0 {
      TakenIsCode(ls, m, k - 1);
      assert ls[k - 1] <= ls[k];
      ShareSplit(m, ls[k - 1], ls[k]);
      ShiftedIs(CodeAt(ls, k - 1) + 1, ls[k] - ls[k - 1]);
      TimesAssoc(CodeAt(ls, k - 1) + 1, Pow2(ls[k] - ls[k - 1]), Share(m, ls[k]));
    }
    TimesSum(CodeAt(ls, k), 1, Share(m, ls[k]));
  }

  lemma TimesCancel(c: int, q: int, s: int)
    requires s > 0 && c * s <= q * s
    ensures c <= q
  {
    Distrib(c, q, s);
    MultipleAtLeast(c - q, s);
  }

  lemma CodeFits(ls: seq<int>, m: nat, k: nat)
    requires Rising(ls, m) && Taken(ls, m, |ls|) <= Pow2(m) && k < |ls|
    ensures CodeAt(ls, k) + 1 <= Pow2(ls[k])
  {
    var c, q, s := CodeAt(ls, k) + 1, Pow2(ls[k]), Share(m, ls[k]);
    assert c * s <= q * s by {
      TakenIsCode(ls, m, k);
      TakenMonotone(ls, m, k + 1, |ls|);
      ShareSplit(m, 0, ls[k]);
    }
    TimesCancel(c, q, s);
  }

  lemma WordIsCode(ls: seq<int>, m: nat, k: nat)
    requires Rising(ls, m) && Taken(ls, m, |ls|) <= Pow2(m) && k < |ls|
    ensures CodeAt(ls, k) + 1 <= Pow2(ls[k]) && Value(WordAt(ls, k)) == CodeAt(ls, k)
  {
    CodeFits(ls, m, k);
    ValueWordOf(CodeAt(ls, k), ls[k]);
  }

  /** The string belongs to the k-th word's share. */
  ghost predicate In(ls: seq<int>, m: nat, k: nat, b: seq<bool>) {
    k < |ls| && |b| == m && Taken(ls, m, k) <= Value(b) < Taken(ls, m, k + 1)
  }

  lemma InIsPrefix(ls: seq<int>, m: nat, k: nat, b: seq<bool>)
    requires Rising(ls, m) && Taken(ls, m, |ls|) <= Pow2(m) && k < |ls| && |b| == m
    ensures In(ls, m, k, b) <==> WordAt(ls, k) <= b
  {
    WordIsCode(ls, m, k);
    TakenIsCode(ls, m, k);
    BeginsWith(WordAt(ls, k), b);
  }

  lemma InOnce(ls: seq<int>, m: nat, j: nat, k: nat, b: seq<bool>)
    requires In(ls, m, j, b) && In(ls, m, k, b)
    ensures j == k
  {
    if j < k { TakenMonotone(ls, m, j + 1, k); }
    if k < j { TakenMonotone(ls, m, k + 1, j); }
  }

  /** Every string in the part taken belongs to a word. */
  lemma {:induction false} InSome(ls: seq<int>, m: nat, n: nat, b: seq<bool>) returns (k: nat)
    requires n <= |ls| && |b| == m && Value(b) < Taken(ls, m, n)
    ensures k < n && In(ls, m, k, b)
    decreases n
  {
    if Value(b) < Taken(ls, m, n - 1) {
      k := InSome(ls, m, n - 1, b);
    } else {
      k := n - 1;
    }
  }

  /** From one word to the next: add one, then zeros up to its length. */
  lemma WordAfter(ls: seq<int>, m: nat, k: nat)
    requires Rising(ls, m) && Taken(ls, m, |ls|) <= Pow2(m) && k + 1 < |ls|
    ensures CodeAt(ls, k) + 1 < Pow2(ls[k]) && Number(WordOf(CodeAt(ls, k) + 1, ls[k])) == Number(WordAt(ls, k + 1))
  {
    assert CodeAt(ls, k) + 1 < Pow2(ls[k]) && ls[k] <= ls[k + 1] by { NotLast(ls, m, k); }
    assert Value(WordAt(ls, k + 1)) == CodeAt(ls, k + 1) by { WordIsCode(ls, m, k + 1); }
    Extended(CodeAt(ls, k) + 1, ls[k], ls[k + 1] - ls[k], WordAt(ls, k + 1));
  }

  lemma Extended(c: nat, l: nat, d: nat, w: seq<bool>)
    requires c < Pow2(l) && |w| == l + d && Value(w) == Shifted(c, d)
    ensures Number(w) == Number(WordOf(c, l))
  {
    ShiftedIs(c, d);
    var u := WordOf(c, l);
    ValueWordOf(c, l);
    ValueConcat(u, Falses(d));
    ValueFalses(d);
    SameValue(w, u + Falses(d));
    NumberPadded(u, d);
  }

  lemma NotLast(ls: seq<int>, m: nat, k: nat)
    requires Rising(ls, m) && Taken(ls, m, |ls|) <= Pow2(m) && k + 1 < |ls|
    ensures CodeAt(ls, k) + 1 < Pow2(ls[k]) && ls[k] <= ls[k + 1]
  {
    var t := Taken(ls, m, k + 1);
    assert t < Pow2(m) by {
      TakenMonotone(ls, m, k + 2, |ls|);
      assert Share(m, ls[k + 1]) > 0;
    }
    assert t == (CodeAt(ls, k) + 1) * Share(m, ls[k]) by { TakenIsCode(ls, m, k); }
    ShareSplit(m, 0, ls[k]);
    StrictlyFits(CodeAt(ls, k) + 1, Pow2(ls[k]), Share(m, ls[k]), t);
  }

  lemma StrictlyFits(c: int, q: int, s: int, t: int)
    requires s > 0 && t == c * s < q * s
    ensures c < q
  {
    if c >= q { TimesAtMost(q, c, s); }
  }

  lemma TimesAtMost(x: int, y: int, z: int)
    requires x <= y && z >= 0
    ensures x * z <= y * z
  {
  }

  // ---- Cells: the strings that share their first r bits ----

  /** The cell in which a word of r bits or more lies. */
  ghost function Cell(ls: seq<int>, r: nat, k: nat): nat
    requires k < |ls| && r <= ls[k]
  {
    CellSealed(9, ls, r, k)
  }

  /** The count z only keeps the verifier from looking inside. */
  ghost function CellSealed(z: nat, ls: seq<int>, r: nat, k: nat): nat
    requires k < |ls| && r <= ls[k]
    decreases z, |ls|
  {
    if z == 0 then Value(WordAt(ls, k)[..r]) else CellSealed(z - 1, ls, r, k)
  }

  lemma {:induction false} CellSeal(z: nat, ls: seq<int>, r: nat, k: nat)
    requires k < |ls| && r <= ls[k]
    ensures CellSealed(z, ls, r, k) == Value(WordAt(ls, k)[..r])
  {
    if z > 0 { CellSeal(z - 1, ls, r, k); }
  }

  /** A word of r bits or more lies in its cell. */
  lemma CellHolds(ls: seq<int>, m: nat, r: nat, k: nat)
    requires Rising(ls, m) && Taken(ls, m, |ls|) <= Pow2(m) && k < |ls| && r <= ls[k]
    ensures InCell(Taken(ls, m, k), Cell(ls, r, k), Share(m, r)) && Taken(ls, m, k + 1) <= (Cell(ls, r, k) + 1) * Share(m, r)
  {
    var w := WordAt(ls, k);
    CellSeal(9, ls, r, k);
    assert Value(w) == CodeAt(ls, k) by { WordIsCode(ls, m, k); }
    TakenIsCode(ls, m, k);
    Halved(w, r);
    ShareSplit(m, r, ls[k]);
    NestedIs(Taken(ls, m, k), Taken(ls, m, k + 1), CodeAt(ls, k), Value(w[..r]), Value(w[r..]), Pow2(ls[k] - r), Share(m, ls[k]), Share(m, r));
  }

  /** A small interval inside a large one. */
  lemma Nested(q: nat, r: nat, p: nat, s: nat)
    requires r < p && s > 0
    ensures InCell((q * p + r) * s, q, p * s) && (q * p + r + 1) * s <= (q + 1) * (p * s)
  {
    TimesSum(q * p, r, s);
    TimesAssoc(q, p, s);
    TimesBelow(r, p, s);
    TimesSum(q, 1, p * s);
    TimesSum(q * p + r, 1, s);
    TimesSum(r, 1, s);
    TimesAtMost(r + 1, p, s);
  }

  lemma NestedIs(t: nat, t': nat, c: nat, q: nat, r: nat, p: nat, s: nat, big: nat)
    requires r < p && s > 0 && c == q * p + r && t == c * s && t' == (c + 1) * s && big == p * s
    ensures InCell(t, q, big) && t' <= (q + 1) * big
  {
    Nested(q, r, p, s);
  }

  /** The first word past a short one, or past the last of a cell, opens its cell. */
  lemma CellOpens(ls: seq<int>, m: nat, r: nat, k: nat)
    requires Rising(ls, m) && Taken(ls, m, |ls|) <= Pow2(m) && k + 1 < |ls| && r <= ls[k + 1]
    requires ls[k] <= r || Cell(ls, r, k) != Cell(ls, r, k + 1)
    ensures Taken(ls, m, k + 1) == Cell(ls, r, k + 1) * Share(m, r)
  {
    CellHolds(ls, m, r, k + 1);
    assert Share(m, r) > 0;
    if ls[k] <= r {
      TakenIsCode(ls, m, k);
      ShareSplit(m, ls[k], r);
      TimesAssoc(CodeAt(ls, k) + 1, Pow2(r - ls[k]), Share(m, r));
      Aligned((CodeAt(ls, k) + 1) * Pow2(r - ls[k]), Cell(ls, r, k + 1), Share(m, r));
    } else {
      CellHolds(ls, m, r, k);
      TakenMonotone(ls, m, k, k + 1);
      Crossed(Taken(ls, m, k), Taken(ls, m, k + 1), Cell(ls, r, k), Cell(ls, r, k + 1), Share(m, r));
    }
  }

  lemma Aligned(q: int, c: int, s: int)
    requires s > 0 && InCell(q * s, c, s)
    ensures q == c
  {
    CellOf(q * s, q, 0, s, c);
  }

  lemma Crossed(a: int, b: int, c: int, d: int, s: int)
    requires s > 0 && InCell(a, c, s) && InCell(b, d, s) && a <= b <= (c + 1) * s && c != d
    ensures b == d * s
  {
    if d < c { TimesAtMost(d + 1, c, s); }
    TimesAtMost(c + 1, d, s);
  }
}
