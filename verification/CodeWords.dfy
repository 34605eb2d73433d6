/** Code words as strings of bits in the order they are sent. Deflate packs them into bytes from
    the lowest bit up, so a word has two numbers: Value, first bit highest, by which words are
    ordered and assigned, and Number, first bit lowest, by which tables are indexed. */
module CodeWords {
  import opened Bits

  /** x splits into q pieces of p and a rest r. */
  ghost predicate Split(x: int, q: int, r: int, p: int) { x == q * p + r && 0 <= r < p }

  lemma SplitDiv(x: nat, q: nat, r: nat, p: nat)
    requires Split(x, q, r, p)
    ensures x / p == q && x % p == r
  {
    SplitBits(q, r, p);
  }

  lemma {:induction false} NumberSplit(b: seq<bool>, j: nat)
    requires j <= |b|
    ensures Split(Number(b), Number(b[j..]), Number(b[..j]), Pow2(j))
    decreases j
  {
    if j == 0 {
      assert b[0..] == b;
    } else {
      var c := b[1..];
      NumberSplit(c, j - 1);
      assert c[j - 1..] == b[j..] && c[..j - 1] == b[..j][1..];
      SplitTwice(Number(c), Number(b[j..]), Number(c[..j - 1]), Pow2(j - 1), if b[0] then 1 else 0);
    }
  }

  lemma SplitTwice(x: int, q: int, r: int, p: int, d: int)
    requires Split(x, q, r, p) && 0 <= d <= 1
    ensures Split(d + 2 * x, q, d + 2 * r, 2 * p)
  {
    MulSwap(q, p);
  }

  lemma SameNumber(a: seq<bool>, b: seq<bool>)
    requires |a| == |b| && Number(a) == Number(b)
    ensures a == b
  {
    BitsOfNumber(a);
    BitsOfNumber(b);
  }

  lemma SameValue(a: seq<bool>, b: seq<bool>)
    requires |a| == |b| && Value(a) == Value(b)
    ensures a == b
  {
    ToBitsValue(a);
    ToBitsValue(b);
  }

  /** The word of n bits with value v. */
  ghost function WordOf(v: nat, n: nat): (w: seq<bool>)
    ensures |w| == n
    decreases n
  {
    if n == 0 then [] else WordOf(v / 2, n - 1) + [v % 2 == 1]
  }

  lemma {:induction false} ValueWordOf(v: nat, n: nat)
    requires v < Pow2(n)
    ensures Value(WordOf(v, n)) == v
    decreases n
  {
    if n > 0 {
      ValueWordOf(v / 2, n - 1);
      assert WordOf(v, n)[..n - 1] == WordOf(v / 2, n - 1);
    }
  }

  lemma {:induction false} NumberFalses(n: nat)
    ensures Number(Falses(n)) == 0
  {
    if n > 0 {
      NumberFalses(n - 1);
      assert Falses(n)[1..] == Falses(n - 1);
    }
  }

  lemma {:induction false} ValueFalses(n: nat)
    ensures Value(Falses(n)) == 0
  {
    if n > 0 {
      ValueFalses(n - 1);
      assert Falses(n)[..n - 1] == Falses(n - 1);
    }
  }

  /** Zeros at the end of a word do not change its number. */
  lemma NumberPadded(w: seq<bool>, n: nat)
    ensures Number(w + Falses(n)) == Number(w)
  {
    var b := w + Falses(n);
    NumberSplit(b, |w|);
    assert b[|w|..] == Falses(n) && b[..|w|] == w;
    NumberFalses(n);
  }

  /** The word with bit j set and zeros after it. */
  ghost function Raised(w: seq<bool>, j: nat): (u: seq<bool>)
    requires j < |w|
    ensures |u| == |w|
  {
    w[..j] + [true] + Falses(|w| - j - 1)
  }

  /** The next word of the same length: the last zero becomes a one, and ones after it zeros. */
  lemma {:induction false} NextWord(w: seq<bool>, j: nat)
    requires j < |w| && !w[j] && forall i :: j < i < |w| ==> w[i]
    ensures Value(Raised(w, j)) == Value(w) + 1
    decreases |w|
  {
    var n := |w| - 1;
    var u := Raised(w, j);
    if j == n {
      assert u[..n] == w[..n];
    } else {
      NextWord(w[..n], j);
      assert w[..n][..j] == w[..j];
      assert u[..n] == Raised(w[..n], j);
    }
  }

  lemma {:induction false} LastWord(w: seq<bool>)
    requires forall i :: 0 <= i < |w| ==> w[i]
    ensures Value(w) + 1 == Pow2(|w|)
  {
    if |w| > 0 { LastWord(w[..|w| - 1]); }
  }

  lemma NumberDiv(w: seq<bool>, j: nat, x: nat, p: nat)
    requires j <= |w| && x == Number(w) && p == Pow2(j)
    ensures x / p == Number(w[j..]) && x % p == Number(w[..j])
  {
    NumberSplit(w, j);
    SplitDiv(x, Number(w[j..]), Number(w[..j]), p);
  }

  lemma BitAt(w: seq<bool>, j: nat, y: nat)
    requires j < |w| && y == Number(w[j..])
    ensures y % 2 == if w[j] then 1 else 0
  {
    assert w[j..][0] == w[j];
  }

  lemma {:induction false} NumberSnoc(a: seq<bool>)
    ensures Number(a + [true]) == Number(a) + Pow2(|a|)
  {
    var u := a + [true];
    if |a| == 0 {
      assert u[1..] == [] && u[0];
    } else {
      NumberSnoc(a[1..]);
      assert u[1..] == a[1..] + [true];
    }
  }

  lemma NumberOfNext(w: seq<bool>, j: nat, x: nat, p: nat)
    requires j < |w| && x == Number(w) && p == Pow2(j)
    ensures Number(Raised(w, j)) == x % p + p
  {
    NumberDiv(w, j, x, p);
    NumberSnoc(w[..j]);
    NumberPadded(w[..j] + [true], |w| - j - 1);
  }

  lemma NextNumber(w: seq<bool>, j: nat, x: nat, p: nat)
    requires j < |w| && x == Number(w) && p == Pow2(j) && !w[j] && forall i :: j < i < |w| ==> w[i]
    ensures Value(w) + 1 < Pow2(|w|) && Number(WordOf(Value(w) + 1, |w|)) == x % p + p
  {
    NextWord(w, j);
    NumberOfNext(w, j, x, p);
    ValueGivesNumber(Raised(w, j), Value(w) + 1);
  }

  lemma ValueGivesNumber(u: seq<bool>, v: nat)
    requires Value(u) == v
    ensures v < Pow2(|u|) && Number(WordOf(v, |u|)) == Number(u)
  {
    ValueBound(u);
    ValueWordOf(v, |u|);
    SameValue(u, WordOf(v, |u|));
  }

  /** The last zero of a word, as a power of two, or 0 if there is none. */
  method LastZero(huff: nat, len: nat, ghost w: seq<bool>) returns (incr: nat, ghost j: int)
    requires |w| == len >= 1 && huff == Number(w)
    ensures -1 <= j < len && incr == (if j >= 0 then Pow2(j) else 0)
    ensures (forall i :: j < i < len ==> w[i]) && (j >= 0 ==> !w[j])
  {
    incr, j := Pow2(len - 1), len - 1;
    NumberDiv(w, j, huff, incr);
    while incr != 0 && huff / incr % 2 == 1
      invariant -1 <= j < len && incr == (if j >= 0 then Pow2(j) else 0)
      invariant forall i :: j < i < len ==> w[i]
      invariant j >= 0 ==> huff / incr == Number(w[j..])
      decreases j
    {
      BitAt(w, j, huff / incr);
      incr, j := incr / 2, j - 1;
      if j >= 0 { NumberDiv(w, j, huff, incr); }
    }
    if j >= 0 { BitAt(w, j, huff / incr); }
  }

  /** The backwards increment: huff holds a word of len bits, first bit lowest. */
  method BackIncrement(huff: nat, len: nat, ghost w: seq<bool>) returns (next: nat)
    requires |w| == len >= 1 && huff == Number(w)
    ensures Value(w) + 1 < Pow2(len) ==> next == Number(WordOf(Value(w) + 1, len))
    ensures Value(w) + 1 >= Pow2(len) ==> next == 0
  {
    var incr, j := LastZero(huff, len, w);
    if incr != 0 {
      next := huff % incr + incr;
      NextNumber(w, j, huff, incr);
    } else {
      next := 0;
      LastWord(w);
    }
  }

  /** The c-th interval of p numbers. */
  ghost predicate InCell(v: int, c: int, p: int) { c * p <= v < (c + 1) * p }

  /** The strings that begin with a word are those whose value lies in its interval. */
  lemma BeginsWith(w: seq<bool>, b: seq<bool>)
    requires |w| <= |b|
    ensures w <= b <==> InCell(Value(b), Value(w), Pow2(|b| - |w|))
  {
    var l := |w|;
    Halved(b, l);
    CellOf(Value(b), Value(b[..l]), Value(b[l..]), Pow2(|b| - l), Value(w));
    if Value(b[..l]) == Value(w) { SameValue(w, b[..l]); }
  }

  lemma Halved(b: seq<bool>, l: nat)
    requires l <= |b|
    ensures Value(b) == Value(b[..l]) * Pow2(|b| - l) + Value(b[l..]) && Value(b[l..]) < Pow2(|b| - l)
  {
    assert b == b[..l] + b[l..];
    ValueConcat(b[..l], b[l..]);
    ValueBound(b[l..]);
  }

  lemma CellOf(v: int, q: int, r: int, p: int, c: int)
    requires 0 <= r < p && v == q * p + r
    ensures InCell(v, c, p) <==> q == c
  {
    TimesSum(c, 1, p);
    var d := q - c;
    TimesSum(c, d, p);
    MultipleAtLeast(d, p);
  }
}
