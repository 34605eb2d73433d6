/** The LZ77 stage of deflate (deflate.c): fill_window, deflate_fast and deflate_slow, down to the
    tokens they tally. Blocks are flushed by moving on; what becomes of tokens after that is not
    modelled. */
module Deflater {
  import opened Sequences
  import opened Bits
  import opened DeflateHash
  import opened DeflateMatch
  import opened InflateWindow

  // ---- The dictionary over the data in the window ----

  /** The chains link the strings of the data, none later than top. The count k only keeps the
      verifier from looking inside: DictOpen and DictClose do. */
  ghost predicate DictSealed(k: nat, n: nat, g: Shape, d: seq<Byte>, c: Chains, top: int)
    decreases k, |d|
  {
    if k == 0 then Linked(n, Keys(g, d), c, top) else DictSealed(k - 1, n, g, d, c, top)
  }

  ghost predicate Dict(n: nat, g: Shape, d: seq<Byte>, c: Chains, top: int) {
    && n > MinLookahead && GoodShape(g) && |c.owner| == |c.prev| == n && |c.head| == Pow2(g.bits)
    && DictSealed(9, n, g, d, c, top)
  }

  lemma {:induction false} DictSeal(k: nat, n: nat, g: Shape, d: seq<Byte>, c: Chains, top: int)
    ensures DictSealed(k, n, g, d, c, top) <==> Linked(n, Keys(g, d), c, top)
  {
    if k > 0 { DictSeal(k - 1, n, g, d, c, top); }
  }

  /** The running hash stands before position p: its two bytes are in. */
  ghost predicate Rolling(g: Shape, d: seq<Byte>, h: seq<bool>, p: int) {
    |h| == g.bits && (0 <= p && p + 2 < |d| ==> Rolls(h, g.shift, d[p], d[p + 1]))
  }

  lemma DictEmpty(n: nat, g: Shape, c: Chains)
    requires n > MinLookahead && GoodShape(g) && |c.owner| == |c.prev| == n && |c.head| == Pow2(g.bits)
    requires (forall i :: 0 <= i < |c.head| ==> c.head[i] == 0) && (forall j :: 0 <= j < n ==> c.owner[j] == 0)
    ensures Dict(n, g, [], c, -1)
  {
    EmptyLinked(n, c);
    DictSeal(9, n, g, [], c, -1);
    assert Keys(g, []) == [];
  }

  lemma DictMore(n: nat, g: Shape, d: seq<Byte>, e: seq<Byte>, c: Chains, top: int)
    requires Dict(n, g, d, c, top) && d <= e
    ensures Dict(n, g, e, c, top)
  {
    DictSeal(9, n, g, d, c, top);
    DictSeal(9, n, g, e, c, top);
    KeysPrefix(g, d, e);
    KeysInRange(g, e);
    MoreLinked(n, Keys(g, d), Keys(g, e), c, top, top);
  }

  lemma DictSlide(n: nat, g: Shape, d: seq<Byte>, c: Chains, top: int)
    requires Dict(n, g, d, c, top) && n + 2 <= |d|
    ensures Dict(n, g, d[n..], SlidChains(c, n), top - n)
  {
    DictSeal(9, n, g, d, c, top);
    DictSeal(9, n, g, d[n..], SlidChains(c, n), top - n);
    KeysSuffix(g, d, n);
    SlideLinked(n, Keys(g, d), c, top, Keys(g, d[n..]), SlidChains(c, n), top - n);
  }

  /** No position later than the last string is named. */
  lemma DictTop(n: nat, g: Shape, d: seq<Byte>, c: Chains, top: int, top': int)
    requires Dict(n, g, d, c, top) && top' >= |d| - 3
    ensures Dict(n, g, d, c, if top < top' then top else top')
  {
    DictSeal(9, n, g, d, c, top);
    DictSeal(9, n, g, d, c, if top < top' then top else top');
    var key, t := Keys(g, d), if top < top' then top else top';
    forall i | 0 <= i < |c.head| ensures HeadOk(n, key, c, t, i) {
      assert HeadOk(n, key, c, top, i);
    }
    forall j | 0 <= j < n ensures SlotOk(n, key, c, t, j) {
      assert SlotOk(n, key, c, top, j);
    }
  }

  /** The hash started afresh at p. */
  lemma RollingStart(g: Shape, d: seq<Byte>, p: int)
    requires 0 <= p && p + 1 < |d| && GoodShape(g)
    ensures Rolling(g, d, Updated(Updated(Falses(g.bits), g.shift, d[p]), g.shift, d[p + 1]), p)
  {
    RollStart(Falses(g.bits), g.shift, d[p], d[p + 1]);
  }

  lemma RollingSlide(g: Shape, d: seq<Byte>, h: seq<bool>, p: int, n: nat)
    requires Rolling(g, d, h, p) && n <= p && n <= |d|
    ensures Rolling(g, d[n..], h, p - n)
  {
  }

  /** The hash that rolls over position p is its key. */
  lemma InsertKey(g: Shape, d: seq<Byte>, h: seq<bool>, p: int)
    requires Rolling(g, d, h, p) && 0 <= p && p + 2 < |d| && GoodShape(g)
    ensures var h' := Updated(h, g.shift, d[p + 2]); Number(h') == Keys(g, d)[p] && Rolling(g, d, h', p + 1)
  {
    RollOn(h, g.shift, d[p], d[p + 1], d[p + 2]);
  }

  lemma InsertChain(n: nat, key: seq<int>, c: Chains, top: int, p: int)
    requires Linked(n, key, c, top) && top < p && 0 <= p < |key|
    ensures var i := key[p]; var v := c.head[i]; var c' := Inserted(n, c, i, p);
      Linked(n, key, c', p) && (v == 0 || (0 < v < p && Named(n, key, c', p, v) && key[v] == i))
  {
    InsertLinked(n, key, c, top, p);
    assert HeadOk(n, key, c, top, key[p]);
  }

  /** INSERT_STRING at p: the chain found there is that of the string. */
  lemma InsertDict(n: nat, g: Shape, d: seq<Byte>, c: Chains, top: int, i: int, p: int)
    requires Dict(n, g, d, c, top) && top < p && 0 <= p && p + 2 < |d| && i == Keys(g, d)[p]
    ensures 0 <= i < |c.head| && Dict(n, g, d, Inserted(n, c, i, p), p) && (c.head[i] == 0 || 0 < c.head[i] < p)
    ensures c.head[i] != 0 && p - c.head[i] <= n - MinLookahead ==> OnChain(n, g, d, Inserted(n, c, i, p), p, c.head[i])
  {
    DictSeal(9, n, g, d, c, top);
    DictSeal(9, n, g, d, Inserted(n, c, i, p), p);
    InsertChain(n, Keys(g, d), c, top, p);
    ChainSeal(9, n, g, d, Inserted(n, c, i, p), p, c.head[i]);
  }

  /** The hash and the place in the table after one more byte. */
  function HashStep(g: Shape, h: seq<bool>, c: Byte): (r: (seq<bool>, nat))
    ensures |r.0| == |h|
  {
    var u := Updated(h, g.shift, c);
    (u, Number(u))
  }

  /** r is that step; sealed like DictSealed. */
  ghost predicate IsStep(k: nat, g: Shape, h: seq<bool>, c: Byte, r: (seq<bool>, nat))
    decreases k, |h|
  {
    if k == 0 then r == HashStep(g, h, c) else IsStep(k - 1, g, h, c, r)
  }

  lemma {:induction false} StepSeal(k: nat, g: Shape, h: seq<bool>, c: Byte, r: (seq<bool>, nat))
    ensures IsStep(k, g, h, c, r) <==> r == HashStep(g, h, c)
  {
    if k > 0 { StepSeal(k - 1, g, h, c, r); }
  }

  method TakeStep(g: Shape, h: seq<bool>, c: Byte) returns (r: (seq<bool>, nat))
    ensures IsStep(9, g, h, c, r)
  {
    r := HashStep(g, h, c);
    StepSeal(9, g, h, c, r);
  }

  /** h heads the chain of the string at s; sealed like DictSealed. */
  ghost predicate HeadSealed(k: nat, g: Shape, d: seq<Byte>, head: seq<int>, s: int, h: int)
    decreases k, |d|
  {
    if k == 0 then IsHead(g, d, head, s, h) else HeadSealed(k - 1, g, d, head, s, h)
  }

  ghost predicate IsHead(g: Shape, d: seq<Byte>, head: seq<int>, s: int, h: int) {
    0 <= s && s + 2 < |d| && |head| == Pow2(g.bits) && h == head[KeyOf(g, d[s], d[s + 1], d[s + 2])]
  }

  lemma {:induction false} HeadSeal(k: nat, g: Shape, d: seq<Byte>, head: seq<int>, s: int, h: int)
    ensures HeadSealed(k, g, d, head, s, h) == IsHead(g, d, head, s, h)
  {
    if k > 0 { HeadSeal(k - 1, g, d, head, s, h); }
  }

  /** The chains with the string at p, if there is one, put on the chain of its key. */
  ghost function PutAt(n: nat, g: Shape, d: seq<Byte>, c: Chains, p: int): Chains {
    if n > 0 && |c.head| == Pow2(g.bits) && |c.prev| == |c.owner| == n && 0 <= p && p + 2 < |d|
    then Inserted(n, c, KeyOf(g, d[p], d[p + 1], d[p + 2]), p) else c
  }

  /** The chains with the strings from one position to another put on, in order. */
  ghost function Strung(n: nat, g: Shape, d: seq<Byte>, c: Chains, lo: int, hi: int): Chains
    decreases hi - lo
  {
    if hi <= lo then c else PutAt(n, g, d, Strung(n, g, d, c, lo, hi - 1), hi - 1)
  }

  /** c' is that; sealed like DictSealed. */
  ghost predicate StringsSealed(k: nat, n: nat, g: Shape, d: seq<Byte>, c: Chains, lo: int, hi: int, c': Chains)
    decreases k, |d|
  {
    if k == 0 then c' == Strung(n, g, d, c, lo, hi) else StringsSealed(k - 1, n, g, d, c, lo, hi, c')
  }

  ghost predicate Strings(n: nat, g: Shape, d: seq<Byte>, c: Chains, lo: int, hi: int, c': Chains) {
    StringsSealed(9, n, g, d, c, lo, hi, c')
  }

  lemma {:induction false} StringsSeal(k: nat, n: nat, g: Shape, d: seq<Byte>, c: Chains, lo: int, hi: int, c': Chains)
    ensures StringsSealed(k, n, g, d, c, lo, hi, c') == (c' == Strung(n, g, d, c, lo, hi))
  {
    if k > 0 { StringsSeal(k - 1, n, g, d, c, lo, hi, c'); }
  }

  lemma NoStrings(n: nat, g: Shape, d: seq<Byte>, c: Chains, p: int)
    ensures Strings(n, g, d, c, p, p, c)
    ensures p + 2 >= |d| ==> Strings(n, g, d, c, p, p + 1, c)
  {
    StringsSeal(9, n, g, d, c, p, p, c);
    StringsSeal(9, n, g, d, c, p, p + 1, c);
  }

  lemma {:induction false} StrungJoin(n: nat, g: Shape, d: seq<Byte>, c: Chains, lo: int, mid: int, hi: int)
    requires lo <= mid <= hi
    ensures Strung(n, g, d, Strung(n, g, d, c, lo, mid), mid, hi) == Strung(n, g, d, c, lo, hi)
    decreases hi - mid
  {
    if mid < hi { StrungJoin(n, g, d, c, lo, mid, hi - 1); }
  }

  lemma StringsJoin(n: nat, g: Shape, d: seq<Byte>, c: Chains, lo: int, mid: int, hi: int, c1: Chains, c2: Chains)
    requires Strings(n, g, d, c, lo, mid, c1) && Strings(n, g, d, c1, mid, hi, c2) && lo <= mid <= hi
    ensures Strings(n, g, d, c, lo, hi, c2)
  {
    StringsSeal(9, n, g, d, c, lo, mid, c1);
    StringsSeal(9, n, g, d, c1, mid, hi, c2);
    StringsSeal(9, n, g, d, c, lo, hi, c2);
    StrungJoin(n, g, d, c, lo, mid, hi);
  }

  lemma OneString(n: nat, g: Shape, d: seq<Byte>, c: Chains, p: int, i: int)
    requires n > 0 && |c.head| == Pow2(g.bits) && |c.prev| == |c.owner| == n && 0 <= p && p + 2 < |d|
    requires i == KeyOf(g, d[p], d[p + 1], d[p + 2])
    ensures Strings(n, g, d, c, p, p + 1, Inserted(n, c, i, p))
  {
    StringsSeal(9, n, g, d, c, p, p + 1, Inserted(n, c, i, p));
    assert Strung(n, g, d, c, p, p) == c;
  }

  /** INSERT_STRING at p, hash and chain together. */
  lemma InsertBoth(n: nat, g: Shape, d: seq<Byte>, c: Chains, top: int, h: seq<bool>, p: int, r: (seq<bool>, nat))
    requires Dict(n, g, d, c, top) && Rolling(g, d, h, p) && top < p && 0 <= p && p + 2 < |d| && IsStep(9, g, h, d[p + 2], r)
    ensures r.1 < |c.head| && Rolling(g, d, r.0, p + 1) && Dict(n, g, d, Inserted(n, c, r.1, p), p)
    ensures HeadSealed(9, g, d, c.head, p, c.head[r.1]) && Strings(n, g, d, c, p, p + 1, Inserted(n, c, r.1, p))
    ensures c.head[r.1] == 0 || 0 < c.head[r.1] < p
    ensures c.head[r.1] != 0 && p - c.head[r.1] <= n - MinLookahead ==> OnChain(n, g, d, Inserted(n, c, r.1, p), p, c.head[r.1])
  {
    StepSeal(9, g, h, d[p + 2], r);
    InsertKey(g, d, h, p);
    InsertDict(n, g, d, c, top, r.1, p);
    HeadSeal(9, g, d, c.head, p, c.head[r.1]);
    OneString(n, g, d, c, p, r.1);
  }

  // ---- What the machine keeps ----

  /** The data in the window, where in it the machine stands, its dictionary, what went before the
      window, the tokens so far, and the match in hand for the byte held back. */
  datatype View = View(d: seq<Byte>, strstart: int, lookahead: int, insert: int, insH: seq<bool>, c: Chains, top: int,
                       gone: seq<Byte>, tokens: seq<Token>, held: bool, mstart: int, mlen: int)

  /** All input taken in so far. */
  ghost function Input(v: View): seq<Byte> { v.gone + v.d }

  /** How much of the input the tokens stand for: up to strstart, less a byte held back. */
  ghost function Told(v: View): int { |v.gone| + v.strstart - if v.held then 1 else 0 }

  ghost predicate Sized(v: View, n: nat, g: Shape) {
    && n >= 512 && GoodShape(g) && |v.insH| == g.bits && 0 <= v.strstart && 0 <= v.lookahead && |v.d| == v.strstart + v.lookahead <= 2 * n
    && 0 <= v.insert <= 2 && v.insert <= v.strstart && (v.held ==> v.strstart >= 1) && Dict(n, g, v.d, v.c, v.top)
  }

  /** The tokens stand for the input they should. */
  ghost predicate Truthful(v: View, n: nat) {
    0 <= Told(v) <= |Input(v)| && TruthSealed(9, v.tokens, Input(v)[..Told(v)], n - MinLookahead)
  }

  /** Encodes, with a count that only keeps the verifier from looking inside. */
  ghost predicate TruthSealed(k: nat, ts: seq<Token>, out: seq<Byte>, maxDist: int)
    decreases k, |ts|
  {
    if k == 0 then Encodes(ts, out, maxDist) else TruthSealed(k - 1, ts, out, maxDist)
  }

  lemma {:induction false} TruthSeal(k: nat, ts: seq<Token>, out: seq<Byte>, maxDist: int)
    ensures TruthSealed(k, ts, out, maxDist) == Encodes(ts, out, maxDist)
  {
    if k > 0 { TruthSeal(k - 1, ts, out, maxDist); }
  }

  /** The match in hand, if any, is one for the byte held back. */
  ghost predicate InHand(v: View, n: nat) {
    if !v.held then v.mlen < MinMatch
    else v.mlen >= MinMatch ==> InHandMatch(v, n)
  }

  ghost predicate InHandMatch(v: View, n: nat) {
    var m, s := |v.gone| + v.mstart, Told(v);
    v.mlen <= MaxMatch && m < s && s - m <= n - MinLookahead && Equal(Input(v), m, s, v.mlen)
  }

  /** Between steps. */
  ghost predicate Good(v: View, n: nat, g: Shape) {
    && Sized(v, n, g) && v.top < v.strstart - v.insert && Truthful(v, n) && InHand(v, n)
    && (v.lookahead >= MinMatch ==> v.insert == 0 && Rolling(g, v.d, v.insH, v.strstart))
  }

  /** All is in order, input is all input taken in, and told is how much of it is told. */
  ghost predicate Kept(v: View, n: nat, g: Shape, input: seq<Byte>, told: int) {
    Good(v, n, g) && input == Input(v) && told == Told(v)
  }

  /** fill_window moves the upper half down. */
  ghost function Slidden(v: View, n: nat): View
    requires n <= |v.d|
  {
    v.(d := v.d[n..], strstart := v.strstart - n, c := SlidChains(v.c, n), top := v.top - n,
       gone := v.gone + v.d[..n], mstart := v.mstart - n)
  }

  lemma SlideGood(v: View, n: nat, g: Shape)
    requires Good(v, n, g) && v.strstart >= 2 * n - MinLookahead
    ensures Good(Slidden(v, n), n, g) && Input(Slidden(v, n)) == Input(v) && Told(Slidden(v, n)) == Told(v)
  {
    var v' := Slidden(v, n);
    SlideSized(v, n, g);
    SlideRolling(v, n, g);
    Halves(v.gone, v.d, n);
    SameInput(v, v', n);
  }

  lemma SlideSized(v: View, n: nat, g: Shape)
    requires Sized(v, n, g) && v.strstart >= 2 * n - MinLookahead
    ensures Sized(Slidden(v, n), n, g)
  {
    DictSlide(n, g, v.d, v.c, v.top);
    var v' := Slidden(v, n);
    assert v'.d == v.d[n..] && v'.c == SlidChains(v.c, n) && v'.top == v.top - n;
    assert Dict(n, g, v'.d, v'.c, v'.top);
  }

  lemma SlideRolling(v: View, n: nat, g: Shape)
    requires n <= v.strstart && n <= |v.d| && (v.lookahead >= MinMatch ==> Rolling(g, v.d, v.insH, v.strstart))
    ensures var v' := Slidden(v, n); v'.lookahead >= MinMatch ==> Rolling(g, v'.d, v'.insH, v'.strstart)
  {
    if v.lookahead >= MinMatch {
      RollingSlide(g, v.d, v.insH, v.strstart, n);
      var v' := Slidden(v, n);
      assert v'.d == v.d[n..] && v'.insH == v.insH && v'.strstart == v.strstart - n;
    }
  }

  lemma Halves(a: seq<Byte>, d: seq<Byte>, n: nat)
    requires n <= |d|
    ensures (a + d[..n]) + d[n..] == a + d
  {
  }

  lemma SameInput(v: View, v': View, n: nat)
    requires Truthful(v, n) && InHand(v, n) && Input(v') == Input(v) && Told(v') == Told(v)
    requires v'.held == v.held && v'.mlen == v.mlen && v'.tokens == v.tokens && |v'.gone| + v'.mstart == |v.gone| + v.mstart
    ensures Truthful(v', n) && InHand(v', n)
  {
  }

  lemma LowerHalf(w: seq<Byte>, w': seq<Byte>, n: nat, end: nat)
    requires |w| == |w'| == 2 * n && w'[..n] == w[n..] && n <= end <= 2 * n
    ensures w'[..end - n] == w[..end][n..]
  {
    assert w'[..end - n] == w'[..n][..end - n];
  }

  /** New data, before the hash is started on it. */
  ghost predicate Fresh(v: View, n: nat, g: Shape) {
    Sized(v, n, g) && v.top < v.strstart - v.insert && Truthful(v, n) && InHand(v, n)
  }

  lemma ReadGood(v: View, n: nat, g: Shape, x: seq<Byte>)
    requires Good(v, n, g) && |v.d| + |x| <= 2 * n
    ensures Fresh(v.(d := v.d + x, lookahead := v.lookahead + |x|), n, g)
  {
    var v' := v.(d := v.d + x, lookahead := v.lookahead + |x|);
    DictMore(n, g, v.d, v'.d, v.c, v.top);
    GrowInput(v, v', n, x);
  }

  lemma TookIn(v: View, v': View, n: nat, g: Shape, x: seq<Byte>)
    requires Good(v, n, g) && v' == v.(d := v.d + x, lookahead := v.lookahead + |x|) && |v'.d| <= 2 * n
    ensures Fresh(v', n, g) && Input(v') == Input(v) + x && Told(v') == Told(v)
  {
    ReadGood(v, n, g, x);
    Assoc(v.gone, v.d, x);
  }

  lemma GrowInput(v: View, v': View, n: nat, x: seq<Byte>)
    requires Truthful(v, n) && InHand(v, n) && v' == v.(d := v.d + x, lookahead := v'.lookahead)
    ensures Truthful(v', n) && InHand(v', n)
  {
    assert Input(v') == Input(v) + x;
    assert Input(v')[..Told(v')] == Input(v)[..Told(v)];
    if v.held && v.mlen >= MinMatch {
      EqualPart2(Input(v), x, |v.gone| + v.mstart, Told(v), v.mlen);
    }
  }

  lemma EqualPart2(d: seq<Byte>, x: seq<Byte>, m: int, s: int, l: int)
    requires Equal(d, m, s, l)
    ensures Equal(d + x, m, s, l)
  {
    assert (d + x)[m..m + l] == d[m..m + l] && (d + x)[s..s + l] == d[s..s + l];
  }

  /** Only the dictionary has changed, by strings left over. */
  lemma LeftGood(v: View, v': View, n: nat, g: Shape)
    requires Fresh(v, n, g) && v' == v.(insH := v'.insH, c := v'.c, top := v'.top, insert := v'.insert)
    requires Dict(n, g, v'.d, v'.c, v'.top) && v'.top < v'.strstart - v'.insert && 0 <= v'.insert <= v.insert
    requires Rolling(g, v'.d, v'.insH, v'.strstart - v'.insert) && (v'.insert == 0 || v'.lookahead + v'.insert < MinMatch)
    ensures Good(v', n, g) && Input(v') == Input(v) && Told(v') == Told(v)
  {
    SameInput(v, v', n);
  }

  /** The position at strstart has been inserted, if its string is there; a match may be in hand. */
  ghost predicate AfterInsert(v0: View, v: View, n: nat, g: Shape) {
    && v == v0.(insH := v.insH, c := v.c, top := v.top, mstart := v.mstart, mlen := v.mlen)
    && Dict(n, g, v.d, v.c, v.top) && |v.insH| == g.bits && v.top < v.strstart + 1 - v.insert
    && (v.lookahead >= MinMatch ==> Rolling(g, v.d, v.insH, v.strstart + 1))
  }

  /** A step on by l bytes, with nothing held back after it. */
  lemma StepGood(v0: View, v': View, n: nat, g: Shape, l: int)
    requires Good(v0, n, g) && v'.d == v0.d && v'.gone == v0.gone && v'.insert == v0.insert
    requires 0 <= l <= v0.lookahead && v'.strstart == v0.strstart + l && v'.lookahead == v0.lookahead - l && (v'.held ==> v'.strstart >= 1)
    requires Dict(n, g, v'.d, v'.c, v'.top) && |v'.insH| == g.bits && v'.top < v'.strstart - v'.insert
    requires (v'.lookahead >= MinMatch ==> Rolling(g, v'.d, v'.insH, v'.strstart)) && Truthful(v', n) && InHand(v', n)
    ensures Good(v', n, g) && Input(v') == Input(v0)
  {
  }

  // ---- Telling tokens ----

  /** A literal for the next byte. */
  lemma TellLiteral(v: View, v': View, n: nat, c: Byte)
    requires Truthful(v, n) && Input(v') == Input(v) && Told(v') == Told(v) + 1 <= |Input(v)| && c == Input(v)[Told(v)]
    requires v'.tokens == v.tokens + [Literal(c)]
    ensures Truthful(v', n)
  {
    var i, t := Input(v), Told(v);
    assert i[..t] + [c] == i[..t + 1];
    TruthSeal(9, v.tokens, i[..t], n - MinLookahead);
    TruthSeal(9, v'.tokens, i[..t + 1], n - MinLookahead);
    EncodesMore(v.tokens, i[..t], n - MinLookahead, Literal(c), i[..t + 1]);
  }

  lemma MatchEncodes(ts: seq<Token>, i: seq<Byte>, t: nat, m: int, l: nat, k: int)
    requires t + l <= |i| && Encodes(ts, i[..t], k) && m < t && t - m <= k && MinMatch <= l <= MaxMatch && Equal(i, m, t, l)
    ensures Encodes(ts + [Match(t - m, l)], i[..t + l], k)
  {
    assert Reaches(i[..t], t - m) && Copied(i[..t], t - m, l) == i[..t + l] by { MatchExpands(i, m, t, l); }
    EncodesMore(ts, i[..t], k, Match(t - m, l), i[..t + l]);
  }

  /** A match for the next bytes. */
  lemma TellMatch(v: View, v': View, n: nat, m: int, l: nat)
    requires Truthful(v, n) && Input(v') == Input(v) && Told(v') == Told(v) + l && Equal(Input(v), m, Told(v), l)
    requires m < Told(v) && Told(v) - m <= n - MinLookahead && MinMatch <= l <= MaxMatch
    requires v'.tokens == v.tokens + [Match(Told(v) - m, l)]
    ensures Truthful(v', n)
  {
    var i, t, k := Input(v), Told(v), n - MinLookahead;
    TruthSeal(9, v.tokens, i[..t], k);
    MatchEncodes(v.tokens, i, t, m, l, k);
    TruthSeal(9, v'.tokens, i[..t + l], k);
  }

  // ---- The machine ----

  /** Matches of three bytes from farther back than this are not worth their bits. */
  const TooFar: nat := 4096

  datatype Flush = NoFlush | SomeFlush | FullFlush | Finish
  datatype Kind = ToldMatch | ToldLiteral | HeldBack
  datatype Block = NeedMore | BlockDone | FinishStarted | FinishDone

  /** The output space never is used up. */
  ghost predicate Roomy(rooms: seq<bool>) { |rooms| > 0 ==> !rooms[0] && Roomy(rooms[1..]) }

  /** All input given over a run of calls. */
  ghost function Given(calls: seq<(seq<Byte>, Flush)>): seq<Byte> {
    if |calls| == 0 then [] else Given(calls[..|calls| - 1]) + calls[|calls| - 1].0
  }

  class Machine {
    const wsize: nat
    const g: Shape
    const maxChain: int
    const goodMatch: nat
    const niceMatch: nat
    const maxLazy: nat
    const filtered: bool
    var window: seq<Byte>
    var head: seq<int>
    var prev: seq<int>
    var nextIn: seq<Byte>
    var strstart: nat
    var lookahead: nat
    var insert: nat
    var insH: seq<bool>
    var matchStart: int
    var matchLength: nat
    var prevMatch: int
    var prevLength: nat
    var matchAvailable: bool
    const litBufsize: nat
    var lastLit: nat
    /** Whether the output space is used up, each time it is asked; it no longer is when these are gone. */
    var rooms: seq<bool>
    ghost var owner: seq<int>
    ghost var top: int
    ghost var gone: seq<Byte>
    /** All tokens tallied, flushed or not. */
    var tokens: seq<Token>
    /** All input taken in, and how much of it the tokens stand for. */
    ghost var input: seq<Byte>
    ghost var told: int

    ghost function Data(): seq<Byte>
      requires strstart + lookahead <= |window|
      reads this
    {
      window[..strstart + lookahead]
    }

    ghost function Links(): Chains
      reads this
    {
      Chains(head, prev, owner)
    }

    ghost function Snap(): View
      requires strstart + lookahead <= |window|
      reads this
    {
      View(Data(), strstart, lookahead, insert, insH, Links(), top, gone, tokens, matchAvailable, matchStart, matchLength)
    }

    ghost predicate Sizes()
      reads this
    {
      |window| == 2 * wsize && wsize >= 512 && GoodShape(g) && strstart + lookahead <= |window|
    }

    ghost predicate State()
      reads this
    {
      Sizes() && Kept(Snap(), wsize, g, input, told)
    }

    /** The invariant; the count only keeps the verifier from looking inside. */
    ghost predicate Hidden(k: nat)
      reads this
      decreases k, strstart
    {
      if k == 0 then State() else Hidden(k - 1)
    }

    ghost predicate Valid()
      reads this
    {
      Hidden(9)
    }

    lemma {:induction false} HiddenIs(k: nat)
      ensures Hidden(k) == State()
      decreases k
    {
      if k > 0 { HiddenIs(k - 1); }
    }

    lemma Open()
      requires Valid()
      ensures Sizes() && Good(Snap(), wsize, g) && input == Input(Snap()) && told == Told(Snap())
    {
      HiddenIs(9);
    }

    lemma Close()
      requires Sizes() && Good(Snap(), wsize, g) && input == Input(Snap()) && told == Told(Snap())
      ensures Valid()
    {
      HiddenIs(9);
    }

    /** deflateInit2_ and lm_init, for windows of 512 bytes or more and hashes of 8 bits or more. */
    constructor (wbits: nat, hashBits: nat, litBufsize: nat, maxChain: int, goodMatch: nat, niceMatch: nat, maxLazy: nat, filtered: bool,
                 rooms: seq<bool>)
      requires wbits >= 9 && hashBits >= 8
      ensures Valid() && tokens == [] && input == [] && told == 0 && nextIn == [] && prevLength == 2 && matchLength == 2 && !matchAvailable
      ensures wsize == Pow2(wbits) && this.rooms == rooms
    {
      wsize, g := Pow2(wbits), Shape(hashBits, (hashBits + 2) / 3);
      window, head, prev := seq(2 * Pow2(wbits), _ => 0), seq(Pow2(hashBits), _ => 0), seq(Pow2(wbits), _ => 0);
      this.maxChain, this.goodMatch, this.niceMatch, this.maxLazy, this.filtered := maxChain, goodMatch, niceMatch, maxLazy, filtered;
      nextIn, strstart, lookahead, insert, insH := [], 0, 0, 0, Falses(hashBits);
      matchStart, matchLength, prevMatch, prevLength, matchAvailable := 0, 2, 0, 2, false;
      this.litBufsize, lastLit, this.rooms := litBufsize, 0, rooms;
      owner, top, gone, tokens, input, told := seq(Pow2(wbits), _ => 0), -1, [], [], [], 0;
      new;
      assert wsize >= 512 by { Pow2Monotone(9, wbits); assert Pow2(9) == 512; }
      assert Data() == [];
      TruthSeal(9, tokens, [], wsize - MinLookahead);
      DictEmpty(wsize, g, Links());
      Close();
    }

    /** Slides the window and all positions. */
    method SlideAll()
      requires Sizes() && wsize <= strstart
      modifies this`strstart, this`matchStart, this`owner, this`top, this`gone, this`window, this`head, this`prev
      ensures Sizes() && strstart == old(strstart) - wsize && Snap() == Slidden(old(Snap()), wsize)
    {
      ghost var d := Data();
      LowerHalf(window, window[wsize..] + window[wsize..], wsize, strstart + lookahead);
      window := window[wsize..] + window[wsize..];
      matchStart, strstart := matchStart - wsize, strstart - wsize;
      head, prev := SlidAll(head, wsize), SlidAll(prev, wsize);
      owner, top, gone := SlidAll(owner, wsize), top - wsize, gone + d[..wsize];
    }

    /** The sliding part of fill_window. */
    method SlideWindow()
      requires Valid() && strstart >= 2 * wsize - MinLookahead
      modifies this`strstart, this`matchStart, this`owner, this`top, this`gone, this`window, this`head, this`prev
      ensures Valid() && Sizes() && strstart == old(strstart) - wsize && strstart + MinLookahead <= 2 * wsize
    {
      Open();
      SlideGood(Snap(), wsize, g);
      SlideAll();
      Close();
    }

    /** read_buf: as much input as there is and fits. */
    method ReadBuf(more: nat) returns (n: nat)
      requires Sizes() && strstart + lookahead + more <= |window|
      modifies this`nextIn, this`lookahead, this`window
      ensures n == Least(|old(nextIn)|, more) && Sizes() && nextIn == old(nextIn)[n..]
      ensures Snap() == old(Snap()).(d := old(Data()) + old(nextIn)[..n], lookahead := old(lookahead) + n)
    {
      n := Least(|nextIn|, more);
      var end := strstart + lookahead;
      ghost var d := Data();
      window := window[..end] + nextIn[..n] + window[end + n..];
      assert window[..end + n] == d + nextIn[..n];
      lookahead := lookahead + n;
      nextIn := nextIn[n..];
    }

    /** INSERT_STRING. */
    method InsertString(str: nat) returns (hashHead: int)
      requires Sizes() && str + 2 < strstart + lookahead && top < str
      requires Dict(wsize, g, Data(), Links(), top) && Rolling(g, Data(), insH, str)
      modifies this`insH, this`owner, this`top, this`head, this`prev
      ensures Dict(wsize, g, Data(), Links(), top) && Rolling(g, Data(), insH, str + 1) && top == str
      ensures HeadSealed(9, g, Data(), old(head), str, hashHead) && prev == old(prev)[SlotOf(str, wsize) := hashHead]
      ensures Strings(wsize, g, Data(), old(Links()), str, str + 1, Links())
      ensures hashHead == 0 || 0 < hashHead < str
      ensures hashHead != 0 && str - hashHead <= wsize - MinLookahead ==> OnChain(wsize, g, Data(), Links(), str, hashHead)
    {
      var r := TakeStep(g, insH, window[str + 2]);
      InsertBoth(wsize, g, Data(), Links(), top, insH, str, r);
      insH := r.0;
      hashHead := PutLink(r.1, str);
    }

    /** Makes str the head of chain i. */
    method PutLink(i: nat, str: nat) returns (hashHead: int)
      requires wsize > 0 && i < |head| && |owner| == |prev| == wsize
      modifies this`owner, this`top, this`head, this`prev
      ensures hashHead == old(head)[i] && Links() == Inserted(wsize, old(Links()), i, str) && top == str
    {
      hashHead := head[i];
      var j := SlotOf(str, wsize);
      head, prev, owner, top := head[i := str], prev[j := hashHead], owner[j := str], str;
    }

    /** Starts the hash at str. */
    method RestartHash(str: nat)
      requires Sizes() && str + 1 < |window|
      modifies this`insH
      ensures |insH| == g.bits && (str + 1 < strstart + lookahead ==> Rolling(g, Data(), insH, str))
    {
      insH := Updated(Updated(Falses(g.bits), g.shift, window[str]), g.shift, window[str + 1]);
      if str + 1 < strstart + lookahead { RollingStart(g, Data(), str); }
    }

    /** Inserts the strings left over, while there are bytes for them. */
    method InsertLoop()
      requires Sizes() && insert <= strstart && lookahead + insert >= MinMatch
      requires Dict(wsize, g, Data(), Links(), top) && Rolling(g, Data(), insH, strstart - insert) && top < strstart - insert
      modifies this`insH, this`owner, this`top, this`insert, this`head, this`prev
      ensures Sizes() && Dict(wsize, g, Data(), Links(), top) && Rolling(g, Data(), insH, strstart - insert) && top < strstart - insert
      ensures insert <= old(insert) && (insert == 0 || lookahead + insert < MinMatch)
      ensures Strings(wsize, g, Data(), old(Links()), strstart - old(insert), strstart - insert, Links())
    {
      var more := insert > 0;
      ghost var c0, from := Links(), strstart - insert;
      NoStrings(wsize, g, Data(), c0, from);
      while more
        invariant Sizes() && insert <= old(insert) && Dict(wsize, g, Data(), Links(), top) && top < strstart - insert
        invariant Rolling(g, Data(), insH, strstart - insert)
        invariant if more then insert > 0 && lookahead + insert >= MinMatch else insert == 0 || lookahead + insert < MinMatch
        invariant Strings(wsize, g, Data(), c0, from, strstart - insert, Links())
        decreases insert
      {
        ghost var c := Links();
        var h := InsertString(strstart - insert);
        StringsJoin(wsize, g, Data(), c0, from, strstart - insert, strstart - insert + 1, c, Links());
        insert := insert - 1;
        more := insert > 0 && lookahead + insert >= MinMatch;
      }
    }

    /** Inserts the strings left over from before. */
    method InsertLeft()
      requires Sizes() && Fresh(Snap(), wsize, g) && lookahead + insert >= MinMatch && input == Input(Snap()) && told == Told(Snap())
      requires Rolling(g, Data(), insH, strstart - insert)
      modifies this`insH, this`owner, this`top, this`insert, this`head, this`prev
      ensures Valid() && Sizes() && insert <= old(insert) && (insert == 0 || lookahead + insert < MinMatch)
      ensures Strings(wsize, g, Data(), old(Links()), strstart - old(insert), strstart - insert, Links())
    {
      ghost var v := Snap();
      InsertLoop();
      LeftGood(v, Snap(), wsize, g);
      Close();
    }

    /** Starts the hash on new data. */
    method StartHash()
      requires Sizes() && Fresh(Snap(), wsize, g) && input == Input(Snap()) && told == Told(Snap())
      modifies this`insH, this`owner, this`top, this`insert, this`head, this`prev
      ensures Valid() && Sizes() && insert <= old(insert) && (insert == 0 || lookahead + insert < MinMatch)
      ensures Strings(wsize, g, Data(), old(Links()), strstart - old(insert), strstart - insert, Links())
    {
      NoStrings(wsize, g, Data(), Links(), strstart - insert);
      if lookahead + insert >= MinMatch {
        ghost var v := Snap();
        RestartHash(strstart - insert);
        RehashedFresh(v, Snap(), wsize, g);
        InsertLeft();
      } else {
        Close();
      }
    }

    /** One turn of fill_window: slides if need be, and reads. */
    method FillOnce()
      requires Valid() && lookahead < MinLookahead
      modifies this`nextIn, this`strstart, this`lookahead, this`matchStart, this`owner, this`top, this`gone, this`window, this`head, this`prev,
               this`insH, this`insert, this`input
      ensures Valid() && input + nextIn == old(input + nextIn)
      ensures strstart + MinLookahead <= 2 * wsize && |nextIn| <= |old(nextIn)| && |nextIn| + lookahead == |old(nextIn)| + old(lookahead)
      ensures |old(nextIn)| > 0 ==> |nextIn| < |old(nextIn)|
    {
      Open();
      if strstart >= 2 * wsize - MinLookahead {
        SlideWindow();
      }
      if |nextIn| > 0 {
        ReadMore();
      }
    }

    /** Takes in new data. */
    method TakeIn()
      requires Valid() && strstart + lookahead + 2 <= 2 * wsize && |nextIn| > 0
      modifies this`nextIn, this`lookahead, this`window, this`input
      ensures Sizes() && Fresh(Snap(), wsize, g) && input == Input(Snap()) && told == Told(Snap()) && input + nextIn == old(input + nextIn)
      ensures |nextIn| < |old(nextIn)| && |nextIn| + lookahead == |old(nextIn)| + old(lookahead)
    {
      Open();
      var more := 2 * wsize - lookahead - strstart;
      ghost var v, x := Snap(), nextIn;
      var n := ReadBuf(more);
      TookIn(v, Snap(), wsize, g, x[..n]);
      Moved(v.gone, v.d, x, n);
      input := input + x[..n];
    }

    /** The reading part. */
    method ReadMore()
      requires Valid() && strstart + lookahead + 2 <= 2 * wsize && |nextIn| > 0
      modifies this`nextIn, this`lookahead, this`window, this`input, this`insH, this`owner, this`top, this`insert, this`head, this`prev
      ensures Valid() && input + nextIn == old(input + nextIn)
      ensures |nextIn| < |old(nextIn)| && |nextIn| + lookahead == |old(nextIn)| + old(lookahead)
      ensures Sizes() && insert <= old(insert) && (insert == 0 || lookahead + insert < MinMatch)
      ensures Strings(wsize, g, Data(), old(Links()), strstart - old(insert), strstart - insert, Links())
    {
      TakeIn();
      StartHash();
    }

    /** fill_window. */
    method FillWindow()
      requires Valid() && lookahead < MinLookahead
      modifies this`nextIn, this`strstart, this`lookahead, this`matchStart, this`owner, this`top, this`gone, this`window, this`head, this`prev,
               this`insH, this`insert, this`input
      ensures Valid() && input + nextIn == old(input + nextIn)
      ensures strstart + MinLookahead <= 2 * wsize && (lookahead >= MinLookahead || nextIn == [])
      ensures |nextIn| + lookahead == |old(nextIn)| + old(lookahead)
    {
      FillOnce();
      while lookahead < MinLookahead && |nextIn| > 0
        invariant Valid() && input + nextIn == old(input + nextIn)
        invariant strstart + MinLookahead <= 2 * wsize && |nextIn| + lookahead == |old(nextIn)| + old(lookahead)
        decreases |nextIn|
      {
        FillOnce();
      }
    }

    /** The string at s, if there is one, has been put on the chain that h headed. */
    ghost predicate Starts(d: seq<Byte>, s: nat, head: seq<int>, prev: seq<int>, prev': seq<int>, h: int) {
      if s + 2 < |d| then wsize > 0 && |prev| == wsize && HeadSealed(9, g, d, head, s, h) && prev' == prev[SlotOf(s, wsize) := h]
      else h == 0 && prev' == prev
    }

    /** A search from h for the string at s for more than length bytes finds len bytes at start: the
        longest of the strings followed, unless it was nice enough to stop at. */
    ghost predicate Finds(d: seq<Byte>, s: nat, prev: seq<int>, h: int, length: nat, len: nat, start: int) {
      && 0 < wsize <= |prev| && h > 0 && s <= |d|
      && Best(d, s, Followed(prev, wsize, h, LimitOf(s, wsize), ChainOf(maxChain, length, goodMatch)), length, NiceOf(niceMatch, |d| - s), len, start)
    }

    /** Finds, with a count that only keeps the verifier from looking inside. */
    ghost predicate Found(k: nat, d: seq<Byte>, s: nat, prev: seq<int>, h: int, length: nat, len: nat, start: int)
      decreases k, |d|
    {
      if k == 0 then Finds(d, s, prev, h, length, len, start) else Found(k - 1, d, s, prev, h, length, len, start)
    }

    lemma {:induction false} FoundSeal(k: nat, d: seq<Byte>, s: nat, prev: seq<int>, h: int, length: nat, len: nat, start: int)
      ensures Found(k, d, s, prev, h, length, len, start) == Finds(d, s, prev, h, length, len, start)
      decreases k
    {
      if k > 0 { FoundSeal(k - 1, d, s, prev, h, length, len, start); }
    }

    /** Inserts the string at strstart, if it is there. */
    method InsertHere() returns (hashHead: int)
      requires Valid()
      modifies this`insH, this`owner, this`top, this`head, this`prev
      ensures Sizes() && AfterInsert(old(Snap()), Snap(), wsize, g) && Snap().mlen == old(matchLength) && Snap().mstart == old(matchStart)
      ensures hashHead != 0 ==> lookahead >= MinMatch && 0 < hashHead < strstart
      ensures Starts(Data(), strstart, old(head), old(prev), prev, hashHead)
      ensures Strings(wsize, g, Data(), old(Links()), strstart, strstart + 1, Links())
      ensures hashHead != 0 && strstart - hashHead <= wsize - MinLookahead ==> OnChain(wsize, g, Data(), Links(), strstart, hashHead)
    {
      Open();
      hashHead := 0;
      if lookahead >= MinMatch {
        hashHead := InsertString(strstart);
      } else {
        NoStrings(wsize, g, Data(), Links(), strstart);
      }
    }

    /** Inserts the strings from one position to another, as far as they are there. */
    method InsertRange(lo: nat, hi: nat)
      requires Sizes() && lo <= hi && Dict(wsize, g, Data(), Links(), top) && top < lo && Rolling(g, Data(), insH, lo)
      modifies this`insH, this`owner, this`top, this`head, this`prev
      ensures Sizes() && Dict(wsize, g, Data(), Links(), top) && top < hi && Rolling(g, Data(), insH, hi)
      ensures lo + 2 >= strstart + lookahead ==> top == old(top)
      ensures Strings(wsize, g, Data(), old(Links()), lo, hi, Links())
    {
      var p := lo;
      ghost var c0 := Links();
      NoStrings(wsize, g, Data(), c0, lo);
      while p < hi
        invariant Sizes() && lo <= p <= hi && Dict(wsize, g, Data(), Links(), top) && top < p && Rolling(g, Data(), insH, p)
        invariant lo + 2 >= strstart + lookahead ==> top == old(top)
        invariant Strings(wsize, g, Data(), c0, lo, p, Links())
      {
        ghost var c := Links();
        if p + 2 < strstart + lookahead {
          var h := InsertString(p);
        } else {
          NoStrings(wsize, g, Data(), c, p);
        }
        StringsJoin(wsize, g, Data(), c0, lo, p, p + 1, c, Links());
        p := p + 1;
      }
    }

    /** Tells a literal, and moves on. */
    method PutLiteral(c: Byte)
      requires Sizes() && lookahead > 0
      modifies this`strstart, this`lookahead, this`tokens, this`told
      ensures Sizes() && lookahead == old(lookahead) - 1 && told == Told(Snap())
      ensures Snap() == old(Snap()).(strstart := old(strstart) + 1, lookahead := old(lookahead) - 1, tokens := old(tokens) + [Literal(c)])
    {
      tokens, strstart, lookahead := tokens + [Literal(c)], strstart + 1, lookahead - 1;
      told := Told(Snap());
    }

    /** A literal for the byte at strstart. */
    method FastLiteral(ghost v0: View)
      requires Sizes() && Good(v0, wsize, g) && input == Input(v0) && AfterInsert(v0, Snap(), wsize, g) && !v0.held && lookahead > 0 && matchLength < MinMatch
      modifies this`strstart, this`lookahead, this`tokens, this`told
      ensures Valid() && lookahead == old(lookahead) - 1 && tokens == old(tokens) + [Literal(old(window[strstart]))]
    {
      ghost var v := Snap();
      PutLiteral(window[strstart]);
      LiteralStep(v0, v, Snap(), wsize, g);
      Close();
    }

    /** How many strings deflate_fast inserts for a match of l bytes with so many bytes after it. */
    ghost function Covers(l: nat, after: nat): nat { if l <= maxLazy && after >= MinMatch then l else 1 }

    /** Moves on by l bytes, inserting their strings if they are few. */
    method Skip(l: nat)
      requires Sizes() && 1 <= l <= MaxMatch && l <= lookahead && strstart + MinLookahead <= 2 * wsize
      requires Dict(wsize, g, Data(), Links(), top) && top <= strstart && Rolling(g, Data(), insH, strstart + 1)
      modifies this`strstart, this`lookahead, this`matchLength, this`insH, this`owner, this`top, this`head, this`prev
      ensures Sizes() && strstart == old(strstart) + l && lookahead == old(lookahead) - l && matchLength == 0 && Data() == old(Data())
      ensures Dict(wsize, g, Data(), Links(), top) && |insH| == g.bits && top < strstart
      ensures lookahead >= MinMatch ==> Rolling(g, Data(), insH, strstart)
      ensures Strings(wsize, g, Data(), old(Links()), old(strstart) + 1, old(strstart) + Covers(l, lookahead), Links())
    {
      NoStrings(wsize, g, Data(), Links(), strstart + 1);
      if l <= maxLazy && lookahead - l >= MinMatch {
        InsertRange(strstart + 1, strstart + l);
        strstart, lookahead, matchLength := strstart + l, lookahead - l, 0;
      } else {
        strstart, lookahead, matchLength := strstart + l, lookahead - l, 0;
        RestartHash(strstart);
      }
    }

    /** Tells a match of the bytes at strstart, and moves on. */
    method TellAndSkip()
      requires Sizes() && MinMatch <= matchLength <= MaxMatch && matchLength <= lookahead && strstart + MinLookahead <= 2 * wsize
      requires matchStart < strstart && !matchAvailable
      requires Dict(wsize, g, Data(), Links(), top) && top <= strstart && Rolling(g, Data(), insH, strstart + 1)
      modifies this`strstart, this`lookahead, this`tokens, this`told, this`matchLength, this`insH, this`owner, this`top, this`head, this`prev
      ensures Sizes() && strstart == old(strstart + matchLength) && lookahead == old(lookahead - matchLength) && matchLength == 0 && Data() == old(Data())
      ensures Dict(wsize, g, Data(), Links(), top) && |insH| == g.bits && top < strstart
      ensures lookahead >= MinMatch ==> Rolling(g, Data(), insH, strstart)
      ensures Strings(wsize, g, Data(), old(Links()), old(strstart) + 1, old(strstart) + Covers(old(matchLength), lookahead), Links())
      ensures tokens == old(tokens) + [Match(old(strstart) - old(matchStart), old(matchLength))] && told == |gone| + strstart
    {
      tokens := tokens + [Match(strstart - matchStart, matchLength)];
      Skip(matchLength);
      told := |gone| + strstart;
    }

    /** A match for the bytes at strstart. */
    method FastMatch(ghost v0: View)
      requires Sizes() && Good(v0, wsize, g) && input == Input(v0) && AfterInsert(v0, Snap(), wsize, g) && !v0.held && strstart + MinLookahead <= 2 * wsize
      requires MinMatch <= matchLength <= MaxMatch && matchLength <= lookahead && IsMatch(wsize, Data(), matchStart, strstart, matchLength)
      modifies this`strstart, this`lookahead, this`tokens, this`told, this`matchLength, this`insH, this`owner, this`top, this`head, this`prev
      ensures Valid() && lookahead < old(lookahead) && matchLength == 0
      ensures tokens == old(tokens) + [Match(old(strstart) - old(matchStart), old(matchLength))]
      ensures old(matchLength) <= old(lookahead)
      ensures Strings(wsize, g, old(Data()), old(Links()), old(strstart) + 1,
                      old(strstart) + Covers(old(matchLength), old(lookahead) - old(matchLength)), Links())
    {
      ghost var m, l := matchStart, matchLength;
      TellAndSkip();
      MatchStep(v0, Snap(), wsize, g, m, l);
      Close();
    }

    /** What the tokens stand for. */
    lemma TokensTell()
      requires Valid()
      ensures 0 <= told <= |input| && Encodes(tokens, input[..told], wsize - MinLookahead)
      ensures told == |gone| + strstart - (if matchAvailable then 1 else 0)
    {
      Open();
      TruthSeal(9, tokens, Input(Snap())[..Told(Snap())], wsize - MinLookahead);
    }

    /** Looks for a match longer than prevLength, from the head of the chain. */
    method Search(hashHead: int, prevLength: nat) returns (len: nat, start: int)
      requires Sizes() && |prev| == wsize && strstart + MinLookahead <= 2 * wsize && 1 <= prevLength <= MaxMatch && hashHead > 0
      requires OnChain(wsize, g, Data(), Links(), strstart, hashHead)
      ensures len <= lookahead && len <= MaxMatch && (len >= prevLength || len == lookahead)
      ensures len > prevLength ==> IsMatch(wsize, Data(), start, strstart, len)
      ensures Found(9, Data(), strstart, prev, hashHead, prevLength, len, start)
    {
      len, start := LongestMatch(window, prev, wsize, strstart, lookahead, prevLength, hashHead, matchStart, maxChain, goodMatch, niceMatch,
                                 g, Data(), Links());
      FoundSeal(9, Data(), strstart, prev, hashHead, prevLength, len, start);
    }

    /** Whether the output space is used up. */
    method NoRoom() returns (full: bool)
      requires Valid()
      modifies this`rooms
      ensures Valid() && (Roomy(old(rooms)) ==> !full && Roomy(rooms))
    {
      Open();
      full := |rooms| > 0 && rooms[0];
      rooms := if |rooms| > 0 then rooms[1..] else [];
      Close();
    }

    /** FLUSH_BLOCK_ONLY. */
    method FlushOnly()
      requires Valid()
      modifies this`lastLit
      ensures Valid() && lastLit == 0
    {
      Open();
      lastLit := 0;
      Close();
    }

    /** FLUSH_BLOCK. */
    method FlushBlock() returns (full: bool)
      requires Valid()
      modifies this`lastLit, this`rooms
      ensures Valid() && lastLit == 0 && (Roomy(old(rooms)) ==> !full && Roomy(rooms))
    {
      FlushOnly();
      full := NoRoom();
    }

    /** Counts a token. */
    method Tally()
      requires Valid()
      modifies this`lastLit
      ensures Valid() && lastLit == old(lastLit) + 1
    {
      Open();
      lastLit := lastLit + 1;
      Close();
    }

    /** Counts a token, and flushes if the block is full. */
    method TallyAndFlush() returns (full: bool)
      requires Valid()
      modifies this`lastLit, this`rooms
      ensures Valid() && (Roomy(old(rooms)) ==> !full && Roomy(rooms))
    {
      Tally();
      full := false;
      if lastLit == litBufsize - 1 {
        full := FlushBlock();
      }
    }

    method FastLook(hashHead: int, ghost v0: View)
      requires Sizes() && |prev| == wsize && AfterInsert(v0, Snap(), wsize, g) && strstart + MinLookahead <= 2 * wsize && prevLength == 2
      requires hashHead > 0 && OnChain(wsize, g, Data(), Links(), strstart, hashHead)
      modifies this`matchLength, this`matchStart
      ensures Sizes() && AfterInsert(v0, Snap(), wsize, g) && matchLength <= lookahead && matchLength <= MaxMatch
      ensures matchLength >= MinMatch ==> IsMatch(wsize, Data(), matchStart, strstart, matchLength)
      ensures Found(9, Data(), strstart, prev, hashHead, 2, matchLength, matchStart)
    {
      ghost var v := Snap();
      matchLength, matchStart := Search(hashHead, prevLength);
      AfterChange(v0, v, Snap(), wsize, g);
    }

    /** What deflate_fast finds at s: h headed its chain, and the match is the one found from there. */
    ghost predicate FastFinds(d: seq<Byte>, s: nat, head: seq<int>, prev: seq<int>, prev': seq<int>, h: int, len: nat, start: int) {
      && Starts(d, s, head, prev, prev', h)
      && (if h != 0 && s - h <= wsize - MinLookahead then Found(9, d, s, prev', h, 2, len, start) else len < MinMatch)
    }

    /** The token for what is found. */
    ghost predicate Tells(d: seq<Byte>, s: nat, len: nat, start: int, t: Token) {
      && s < |d| && (len >= MinMatch ==> start <= s)
      && t == if len >= MinMatch then Match(s - start, len) else Literal(d[s])
    }

    /** How many strings are inserted for a token of len bytes with so many after it. */
    ghost function Inserts(len: nat, ahead: nat): nat {
      if MinMatch <= len <= ahead then Covers(len, ahead - len) else 1
    }

    /** Inserts the string at strstart, and looks for a match. */
    method FastFind(ghost v0: View) returns (ghost h: int)
      requires Valid() && Sizes() && v0 == Snap() && lookahead > 0 && (lookahead >= MinLookahead || strstart + MinLookahead <= 2 * wsize)
      requires !matchAvailable && prevLength == 2
      modifies this`matchLength, this`matchStart, this`insH, this`owner, this`top, this`head, this`prev
      ensures Sizes() && Good(v0, wsize, g) && input == Input(v0) && AfterInsert(v0, Snap(), wsize, g) && strstart + MinLookahead <= 2 * wsize
      ensures matchLength >= MinMatch ==>
                matchLength <= lookahead && matchLength <= MaxMatch && IsMatch(wsize, Data(), matchStart, strstart, matchLength)
      ensures FastFinds(v0.d, v0.strstart, v0.c.head, v0.c.prev, prev, h, matchLength, matchStart)
      ensures Strings(wsize, g, v0.d, v0.c, v0.strstart, v0.strstart + 1, Links())
    {
      Open();
      var hashHead := InsertHere();
      h := hashHead;
      if hashHead != 0 && strstart - hashHead <= wsize - MinLookahead {
        FastLook(hashHead, v0);
      }
    }

    /** Tells the match found, or a literal. */
    method FastTell(ghost v0: View)
      requires Sizes() && Good(v0, wsize, g) && input == Input(v0) && AfterInsert(v0, Snap(), wsize, g) && !v0.held
      requires strstart + MinLookahead <= 2 * wsize && lookahead > 0
      requires matchLength >= MinMatch ==>
                 matchLength <= lookahead && matchLength <= MaxMatch && IsMatch(wsize, Data(), matchStart, strstart, matchLength)
      modifies this`strstart, this`lookahead, this`tokens, this`told, this`matchLength, this`insH, this`owner, this`top, this`head, this`prev
      ensures Valid() && lookahead < old(lookahead) && |tokens| > 0 && tokens == old(tokens) + [tokens[|tokens| - 1]]
      ensures Tells(old(Data()), old(strstart), old(matchLength), old(matchStart), tokens[|tokens| - 1])
      ensures Strings(wsize, g, old(Data()), old(Links()), old(strstart) + 1, old(strstart) + Inserts(old(matchLength), old(lookahead)), Links())
    {
      NoStrings(wsize, g, Data(), Links(), strstart + 1);
      if matchLength >= MinMatch {
        FastMatch(v0);
      } else {
        FastLiteral(v0);
      }
    }

    /** One turn of deflate_fast: a match if one is found, otherwise a literal. */
    method FastStep() returns (ghost prev': seq<int>, ghost h: int, ghost len: nat, ghost start: int)
      requires Valid() && lookahead > 0 && (lookahead >= MinLookahead || strstart + MinLookahead <= 2 * wsize) && !matchAvailable && prevLength == 2
      modifies this`strstart, this`lookahead, this`tokens, this`told, this`matchLength, this`matchStart, this`insH, this`owner, this`top, this`head, this`prev
      ensures Valid() && lookahead < old(lookahead) && old(Sizes())
      ensures FastFinds(old(Data()), old(strstart), old(head), old(prev), prev', h, len, start)
      ensures |tokens| > 0 && tokens == old(tokens) + [tokens[|tokens| - 1]] && Tells(old(Data()), old(strstart), len, start, tokens[|tokens| - 1])
      ensures Strings(wsize, g, old(Data()), old(Links()), old(strstart), old(strstart) + Inserts(len, old(lookahead)), Links())
    {
      Open();
      ghost var v0 := Snap();
      h := FastFind(v0);
      prev', len, start := prev, matchLength, matchStart;
      ghost var c := Links();
      FastTell(v0);
      StringsJoin(wsize, g, v0.d, v0.c, v0.strstart, v0.strstart + 1, v0.strstart + Inserts(len, v0.lookahead), c, Links());
    }

    /** A turn of deflate_fast, and a flush if the block is full. */
    method FastRound() returns (full: bool)
      requires Valid() && lookahead > 0 && (lookahead >= MinLookahead || strstart + MinLookahead <= 2 * wsize) && !matchAvailable && prevLength == 2
      modifies this`strstart, this`lookahead, this`tokens, this`told, this`matchLength, this`matchStart, this`insH, this`owner, this`top, this`head, this`prev,
               this`lastLit, this`rooms
      ensures Valid() && lookahead < old(lookahead) && (Roomy(old(rooms)) ==> !full && Roomy(rooms))
    {
      ghost var prev', h, len, start := FastStep();
      full := TallyAndFlush();
    }

    /** All input is told: the last two strings are left to insert later. */
    method LeaveStrings()
      requires Valid() && lookahead == 0 && !matchAvailable
      modifies this`insert, this`top
      ensures Valid() && told == |input|
    {
      Open();
      ghost var v := Snap();
      insert := if strstart < 2 then strstart else 2;
      top := if top < strstart - 3 then top else strstart - 3;
      LeftOver(v, Snap(), wsize, g);
      Close();
    }

    /** The end of deflate_fast and deflate_slow, when all input is told. */
    method EndBlock(flush: Flush) returns (b: Block)
      requires Valid() && lookahead == 0 && !matchAvailable && nextIn == []
      modifies this`insert, this`top, this`lastLit, this`rooms
      ensures Valid() && told == |input| && (flush == Finish <==> b == FinishStarted || b == FinishDone)
      ensures Roomy(old(rooms)) ==> b == (if flush == Finish then FinishDone else BlockDone) && Roomy(rooms)
    {
      LeaveStrings();
      if flush == Finish {
        var full := FlushBlock();
        return if full then FinishStarted else FinishDone;
      }
      if lastLit > 0 {
        var full := FlushBlock();
        if full {
          return NeedMore;
        }
      }
      b := BlockDone;
    }

    /** The answer to a call: without a flush more is wanted; with one, when the output space is never
        used up, all is done; and finishing is only put off for want of space. */
    ghost predicate Answers(flush: Flush, rooms: seq<bool>, b: Block) {
      && (flush == NoFlush ==> b == NeedMore) && (b == FinishStarted || b == FinishDone ==> flush == Finish) && (b == BlockDone ==> flush != Finish)
      && (flush != NoFlush && Roomy(rooms) ==> b == if flush == Finish then FinishDone else BlockDone)
    }

    /** deflate_fast: over every call, the tokens stand for the input up to strstart. */
    method DeflateFast(flush: Flush) returns (b: Block)
      requires Valid() && !matchAvailable && prevLength == 2
      modifies this
      ensures Valid() && !matchAvailable && prevLength == 2 && input + nextIn == old(input + nextIn)
      ensures b != NeedMore ==> nextIn == [] && told == |input|
      ensures Answers(flush, old(rooms), b) && (Roomy(old(rooms)) ==> nextIn == [] && Roomy(rooms))
    {
      while true
        invariant Valid() && !matchAvailable && prevLength == 2 && input + nextIn == old(input + nextIn)
        invariant Roomy(old(rooms)) ==> Roomy(rooms)
        decreases |nextIn| + lookahead
      {
        if lookahead < MinLookahead {
          FillWindow();
          if lookahead < MinLookahead && flush == NoFlush {
            return NeedMore;
          }
          if lookahead == 0 {
            break;
          }
        }
        var full := FastRound();
        if full {
          return NeedMore;
        }
      }
      b := EndBlock(flush);
    }

    /** Moves on by l bytes, inserting their strings as far as they are there. */
    method Cover(l: nat)
      requires Sizes() && 2 <= l <= lookahead
      requires Dict(wsize, g, Data(), Links(), top) && top < strstart + 1 - insert && Rolling(g, Data(), insH, strstart + 1)
      requires lookahead >= MinMatch ==> insert == 0
      modifies this`strstart, this`lookahead, this`insH, this`owner, this`top, this`head, this`prev
      ensures Sizes() && strstart == old(strstart) + l && lookahead == old(lookahead) - l && Data() == old(Data())
      ensures Dict(wsize, g, Data(), Links(), top) && Rolling(g, Data(), insH, strstart) && top < strstart - insert
      ensures Strings(wsize, g, Data(), old(Links()), old(strstart) + 1, strstart, Links())
    {
      InsertRange(strstart + 1, strstart + l);
      strstart, lookahead := strstart + l, lookahead - l;
    }

    /** The match in hand was the better one: tells it, and inserts the strings it covers. */
    method TellHeld()
      requires Sizes() && matchAvailable && MinMatch <= prevLength && strstart >= 1 && prevLength - 1 <= lookahead && prevMatch < strstart - 1
      requires Dict(wsize, g, Data(), Links(), top) && top < strstart + 1 - insert && Rolling(g, Data(), insH, strstart + 1)
      requires lookahead >= MinMatch ==> insert == 0
      modifies this`strstart, this`lookahead, this`tokens, this`told, this`matchLength, this`prevLength, this`matchAvailable,
               this`insH, this`owner, this`top, this`head, this`prev
      ensures Sizes() && strstart == old(strstart + prevLength) - 1 && lookahead == old(lookahead - prevLength) + 1 && Data() == old(Data())
      ensures matchLength == 2 && prevLength == 0 && !matchAvailable
      ensures Dict(wsize, g, Data(), Links(), top) && Rolling(g, Data(), insH, strstart) && top < strstart - insert
      ensures tokens == old(tokens) + [Match(old(strstart) - 1 - old(prevMatch), old(prevLength))] && told == |gone| + strstart
      ensures Strings(wsize, g, Data(), old(Links()), old(strstart) + 1, strstart, Links())
    {
      var l := prevLength - 1;
      tokens, told := tokens + [Match(strstart - 1 - prevMatch, prevLength)], |gone| + strstart + l;
      prevLength, matchAvailable, matchLength := 0, false, 2;
      Cover(l);
    }

    method SlowMatch(ghost v0: View)
      requires Sizes() && Good(v0, wsize, g) && input == Input(v0) && AfterInsert(v0, Snap(), wsize, g)
      requires v0.held && MinMatch <= prevLength && prevLength == v0.mlen && prevMatch == v0.mstart
      modifies this`strstart, this`lookahead, this`tokens, this`told, this`matchLength, this`prevLength, this`matchAvailable,
               this`insH, this`owner, this`top, this`head, this`prev
      ensures Valid() && lookahead < old(lookahead) && matchLength == 2 && !matchAvailable && strstart == old(strstart + prevLength) - 1
      ensures tokens == old(tokens) + [Match(old(strstart) - 1 - old(prevMatch), old(prevLength))]
      ensures Strings(wsize, g, v0.d, old(Links()), v0.strstart + 1, strstart, Links())
    {
      HeldFits(v0, wsize, g);
      TellHeld();
      HeldStep(v0, Snap(), wsize, g);
      Close();
    }

    /** The byte held back becomes a literal; the next is held back. */
    method SlowLiteral(ghost v0: View)
      requires Sizes() && Good(v0, wsize, g) && input == Input(v0) && AfterInsert(v0, Snap(), wsize, g) && v0.held && lookahead > 0
      requires matchLength >= MinMatch ==> matchLength <= MaxMatch && IsMatch(wsize, Data(), matchStart, strstart, matchLength)
      modifies this`strstart, this`lookahead, this`tokens, this`told
      ensures Valid() && lookahead == old(lookahead) - 1 && strstart == old(strstart) + 1
      ensures tokens == old(tokens) + [Literal(v0.d[v0.strstart - 1])]
    {
      ghost var v := Snap();
      PutLiteral(window[strstart - 1]);
      LiteralStep(v0, v, Snap(), wsize, g);
      Close();
    }

    /** The byte at strstart is held back until the next is looked at. */
    method SlowWait(ghost v0: View)
      requires Sizes() && Good(v0, wsize, g) && input == Input(v0) && told == Told(v0) && AfterInsert(v0, Snap(), wsize, g) && !v0.held && lookahead > 0
      requires matchLength >= MinMatch ==> matchLength <= MaxMatch && IsMatch(wsize, Data(), matchStart, strstart, matchLength)
      modifies this`strstart, this`lookahead, this`matchAvailable
      ensures Valid() && lookahead == old(lookahead) - 1 && strstart == old(strstart) + 1 && matchAvailable
    {
      matchAvailable, strstart, lookahead := true, strstart + 1, lookahead - 1;
      LaterMatch(v0, Snap(), wsize);
      StepGood(v0, Snap(), wsize, g, 1);
      Close();
    }

    /** A short match that is not worth its bits counts as none. */
    function Worth(len: nat, dist: int): nat {
      if len <= 5 && (filtered || (len == MinMatch && dist > TooFar)) then 2 else len
    }

    /** What deflate_slow finds at s when a match of length bytes is in hand: nothing, or what a search finds. */
    ghost predicate Looks(d: seq<Byte>, s: nat, prev: seq<int>, h: int, length: nat, raw: nat, start: int, len: nat) {
      if h != 0 && length < maxLazy && s - h <= wsize - MinLookahead then Found(9, d, s, prev, h, length, raw, start) && len == Worth(raw, s - start)
      else len == 2
    }

    /** Looks for a match at strstart better than the one in hand; 2 stands for none. */
    method LazySearch(hashHead: int, prevLength: nat) returns (len: nat, start: int, ghost raw: nat)
      requires Sizes() && |prev| == wsize && strstart + MinLookahead <= 2 * wsize && 2 <= prevLength <= MaxMatch && hashHead >= 0
      requires hashHead != 0 ==> lookahead >= MinMatch
      requires hashHead != 0 && strstart - hashHead <= wsize - MinLookahead ==> OnChain(wsize, g, Data(), Links(), strstart, hashHead)
      ensures 2 <= len <= MaxMatch
      ensures len > prevLength ==> IsMatch(wsize, Data(), start, strstart, len)
      ensures Looks(Data(), strstart, prev, hashHead, prevLength, raw, start, len)
    {
      len, start, raw := 2, matchStart, 0;
      if hashHead != 0 && prevLength < maxLazy && strstart - hashHead <= wsize - MinLookahead {
        len, start := Search(hashHead, prevLength);
        raw := len;
        if len <= 5 && (filtered || (len == MinMatch && strstart - start > TooFar)) {
          len := 2;
        }
      }
    }

    /** What the lazy choice tells, with a match of length bytes at m in hand and one of len bytes at s:
        the match in hand if that at s is no longer; or else the byte before s, if it was held back. */
    ghost predicate SlowTells(d: seq<Byte>, s: nat, held: bool, m: int, length: nat, len: nat, ts: seq<Token>, ts': seq<Token>,
                              held': bool, s': nat) {
      && s <= |d| && (held ==> s > 0) && (length >= MinMatch && len <= length ==> m < s)
      && if length >= MinMatch && len <= length then ts' == ts + [Match(s - 1 - m, length)] && !held' && s' == s + length - 1
         else held' && s' == s + 1 && ts' == if held then ts + [Literal(d[s - 1])] else ts
    }

    /** Looks whether strstart has a better match than the one in hand. */
    method LookOn(hashHead: int, ghost v0: View) returns (ghost raw: nat)
      requires Sizes() && |prev| == wsize && AfterInsert(v0, Snap(), wsize, g) && strstart + MinLookahead <= 2 * wsize && 2 <= matchLength <= MaxMatch
      requires hashHead >= 0 && (hashHead != 0 ==> lookahead >= MinMatch)
      requires hashHead != 0 && strstart - hashHead <= wsize - MinLookahead ==> OnChain(wsize, g, Data(), Links(), strstart, hashHead)
      modifies this`matchLength, this`matchStart, this`prevLength, this`prevMatch
      ensures Sizes() && AfterInsert(v0, Snap(), wsize, g)
      ensures prevLength == old(matchLength) && prevMatch == old(matchStart) && 2 <= matchLength <= MaxMatch
      ensures matchLength > prevLength ==> IsMatch(wsize, Data(), matchStart, strstart, matchLength)
      ensures Looks(Data(), strstart, prev, hashHead, prevLength, raw, matchStart, matchLength)
    {
      ghost var v := Snap();
      var len, start;
      len, start, raw := LazySearch(hashHead, matchLength);
      prevLength, prevMatch, matchLength, matchStart := matchLength, matchStart, len, start;
      AfterChange(v0, v, Snap(), wsize, g);
    }

    /** Inserts the string at strstart, and looks for a better match than the one in hand. */
    method SlowFind(ghost v0: View) returns (ghost h: int, ghost raw: nat)
      requires Valid() && Sizes() && v0 == Snap() && lookahead > 0 && (lookahead >= MinLookahead || strstart + MinLookahead <= 2 * wsize)
      requires 2 <= matchLength <= MaxMatch
      modifies this`matchLength, this`matchStart, this`prevLength, this`prevMatch, this`insH, this`owner, this`top, this`head, this`prev
      ensures Sizes() && Good(v0, wsize, g) && input == Input(v0) && told == Told(v0) && AfterInsert(v0, Snap(), wsize, g)
      ensures prevLength == old(matchLength) && prevMatch == old(matchStart) && 2 <= matchLength <= MaxMatch
      ensures matchLength > prevLength ==> IsMatch(wsize, Data(), matchStart, strstart, matchLength)
      ensures Starts(v0.d, v0.strstart, v0.c.head, v0.c.prev, prev, h) && Looks(v0.d, v0.strstart, prev, h, v0.mlen, raw, matchStart, matchLength)
      ensures Strings(wsize, g, v0.d, v0.c, v0.strstart, v0.strstart + 1, Links())
    {
      Open();
      var hashHead := InsertHere();
      h := hashHead;
      ghost var d, c := Data(), Links();
      raw := LookOn(hashHead, v0);
      assert Data() == d && Links() == c;
    }

    /** Tells the match in hand, or the byte held back, or holds one back. */
    method SlowTell(ghost v0: View) returns (kind: Kind)
      requires Sizes() && Good(v0, wsize, g) && input == Input(v0) && told == Told(v0) && AfterInsert(v0, Snap(), wsize, g) && lookahead > 0
      requires prevLength == v0.mlen && prevMatch == v0.mstart && 2 <= prevLength && 2 <= matchLength <= MaxMatch
      requires matchLength > prevLength ==> IsMatch(wsize, Data(), matchStart, strstart, matchLength)
      modifies this`strstart, this`lookahead, this`tokens, this`told, this`matchLength, this`prevLength,
               this`matchAvailable, this`insH, this`owner, this`top, this`head, this`prev
      ensures Valid() && lookahead < old(lookahead) && 2 <= matchLength <= MaxMatch
      ensures SlowTells(v0.d, v0.strstart, v0.held, v0.mstart, v0.mlen, old(matchLength), v0.tokens, tokens, matchAvailable, strstart)
      ensures Strings(wsize, g, v0.d, old(Links()), v0.strstart + 1, strstart, Links()) && strstart > v0.strstart
      ensures matchAvailable ==> matchLength == old(matchLength)
    {
      NoStrings(wsize, g, v0.d, Links(), v0.strstart + 1);
      if prevLength >= MinMatch && matchLength <= prevLength {
        SlowMatch(v0);
        kind := ToldMatch;
      } else if matchAvailable {
        SlowLiteral(v0);
        kind := ToldLiteral;
      } else {
        SlowWait(v0);
        kind := HeldBack;
      }
    }

    /** One turn of deflate_slow: a search at strstart, and the choice between it and the match in hand. */
    method SlowStep() returns (kind: Kind, ghost prev': seq<int>, ghost h: int, ghost raw: nat, ghost start: int, ghost len: nat)
      requires Valid() && lookahead > 0 && (lookahead >= MinLookahead || strstart + MinLookahead <= 2 * wsize) && 2 <= matchLength <= MaxMatch
      modifies this`strstart, this`lookahead, this`tokens, this`told, this`matchLength, this`matchStart, this`prevLength, this`prevMatch,
               this`matchAvailable, this`insH, this`owner, this`top, this`head, this`prev
      ensures Valid() && lookahead < old(lookahead) && 2 <= matchLength <= MaxMatch && old(Sizes())
      ensures Starts(old(Data()), old(strstart), old(head), old(prev), prev', h)
      ensures Looks(old(Data()), old(strstart), prev', h, old(matchLength), raw, start, len)
      ensures SlowTells(old(Data()), old(strstart), old(matchAvailable), old(matchStart), old(matchLength), len, old(tokens), tokens,
                        matchAvailable, strstart)
      ensures matchAvailable ==> matchLength == len && matchStart == start
      ensures Strings(wsize, g, old(Data()), old(Links()), old(strstart), strstart, Links())
    {
      Open();
      ghost var v0 := Snap();
      h, raw := SlowFind(v0);
      prev', start, len := prev, matchStart, matchLength;
      ghost var c := Links();
      kind := SlowTell(v0);
      StringsJoin(wsize, g, v0.d, v0.c, v0.strstart, v0.strstart + 1, strstart, c, Links());
    }

    /** A turn of deflate_slow, and what is flushed after it. */
    method SlowRound() returns (stop: bool)
      requires Valid() && lookahead > 0 && (lookahead >= MinLookahead || strstart + MinLookahead <= 2 * wsize) && 2 <= matchLength <= MaxMatch
      modifies this`strstart, this`lookahead, this`tokens, this`told, this`matchLength, this`matchStart, this`prevLength, this`prevMatch,
               this`matchAvailable, this`insH, this`owner, this`top, this`head, this`prev, this`lastLit, this`rooms
      ensures Valid() && lookahead < old(lookahead) && 2 <= matchLength <= MaxMatch
      ensures Roomy(old(rooms)) ==> !stop && Roomy(rooms)
    {
      var kind, prev', h, raw, start, len := SlowStep();
      stop := false;
      if kind == ToldMatch {
        stop := TallyAndFlush();
      } else if kind == ToldLiteral {
        Tally();
        if lastLit == litBufsize - 1 {
          FlushOnly();
        }
        stop := NoRoom();
      }
    }

    /** A byte still held back at the end of the input. */
    method TellLast()
      requires Valid() && lookahead == 0
      modifies this`tokens, this`told, this`matchAvailable, this`lastLit
      ensures Valid() && !matchAvailable
    {
      if matchAvailable {
        Open();
        ghost var v0 := Snap();
        tokens, matchAvailable, told := tokens + [Literal(window[strstart - 1])], false, told + 1;
        LastGood(v0, Snap(), wsize, g);
        Close();
        Tally();
      }
    }

    /** deflate_slow: over every call, the tokens stand for the input up to strstart, less the byte
        held back. */
    method DeflateSlow(flush: Flush) returns (b: Block)
      requires Valid() && 2 <= matchLength <= MaxMatch
      modifies this
      ensures Valid() && 2 <= matchLength <= MaxMatch && input + nextIn == old(input + nextIn)
      ensures b != NeedMore ==> nextIn == [] && told == |input| && !matchAvailable
      ensures Answers(flush, old(rooms), b) && (Roomy(old(rooms)) ==> nextIn == [] && Roomy(rooms))
    {
      while true
        invariant Valid() && 2 <= matchLength <= MaxMatch && input + nextIn == old(input + nextIn)
        invariant Roomy(old(rooms)) ==> Roomy(rooms)
        decreases |nextIn| + lookahead
      {
        if lookahead < MinLookahead {
          FillWindow();
          if lookahead < MinLookahead && flush == NoFlush {
            return NeedMore;
          }
          if lookahead == 0 {
            break;
          }
        }
        var stop := SlowRound();
        if stop {
          return NeedMore;
        }
      }
      TellLast();
      b := EndBlock(flush);
    }

    /** What a level of compression keeps between calls. */
    ghost predicate Ready(slow: bool)
      reads this
    {
      Valid() && if slow then 2 <= matchLength <= MaxMatch else !matchAvailable && prevLength == 2
    }

    /** The caller of deflate gives more input. */
    method Give(x: seq<Byte>, ghost slow: bool)
      requires Ready(slow)
      modifies this`nextIn
      ensures Ready(slow) && nextIn == old(nextIn) + x
    {
      Open();
      nextIn := nextIn + x;
      Close();
    }

    /** CLEAR_HASH, and with no data ahead a fresh start at the beginning of the window. */
    method ClearHash(ghost slow: bool)
      requires Ready(slow) && !matchAvailable
      modifies this`head, this`owner, this`top, this`strstart, this`insert, this`gone
      ensures Ready(slow) && !matchAvailable
    {
      Open();
      ghost var v := Snap();
      EmptyHead();
      ghost var d := Data();
      if lookahead == 0 {
        gone, strstart, insert := gone + d, 0, 0;
      }
      ClearedGood(v, Snap(), wsize, g);
      Close();
    }

    method EmptyHead()
      modifies this`head, this`owner, this`top
      ensures |head| == |old(head)| && |owner| == wsize && top == -1
      ensures (forall i :: 0 <= i < |head| ==> head[i] == 0) && (forall j :: 0 <= j < wsize ==> owner[j] == 0)
    {
      head, owner, top := seq(|head|, _ => 0), seq(wsize, _ => 0), -1;
    }

    /** One call of deflate: the level's function, and what a full flush does after it. */
    method Deflate(slow: bool, flush: Flush) returns (b: Block)
      requires Ready(slow)
      modifies this
      ensures Ready(slow) && input + nextIn == old(input + nextIn)
      ensures b != NeedMore ==> nextIn == [] && told == |input| && !matchAvailable
      ensures Answers(flush, old(rooms), b) && (Roomy(old(rooms)) ==> nextIn == [] && Roomy(rooms))
    {
      if slow {
        b := DeflateSlow(flush);
      } else {
        b := DeflateFast(flush);
      }
      if b == BlockDone && flush == FullFlush {
        ClearHash(slow);
      }
    }

    /** Any run of calls of deflate at one level, each with more input and a way to flush: nothing
        is lost, and when the last call needs no more output space the tokens stand for all input
        ever given. A last call that flushes does so if the output space is never used up. */
    method Calls(slow: bool, calls: seq<(seq<Byte>, Flush)>) returns (b: Block)
      requires Ready(slow)
      modifies this
      ensures Ready(slow) && input + nextIn == old(input + nextIn) + Given(calls)
      ensures b != NeedMore ==> Encodes(tokens, old(input + nextIn) + Given(calls), wsize - MinLookahead)
      ensures |calls| > 0 && calls[|calls| - 1].1 != NoFlush && Roomy(old(rooms)) ==> b != NeedMore
    {
      b := NeedMore;
      for k := 0 to |calls|
        invariant Ready(slow) && input + nextIn == old(input + nextIn) + Given(calls[..k])
        invariant b != NeedMore ==> nextIn == [] && told == |input|
        invariant Roomy(old(rooms)) ==> Roomy(rooms) && (k > 0 && calls[k - 1].1 != NoFlush ==> b != NeedMore)
      {
        Assoc(input, nextIn, calls[k].0);
        Assoc(old(input + nextIn), Given(calls[..k]), calls[k].0);
        assert calls[..k + 1][..k] == calls[..k];
        Give(calls[k].0, slow);
        b := Deflate(slow, calls[k].1);
      }
      assert calls[..|calls|] == calls;
      if b != NeedMore {
        TokensTell();
        assert input[..told] == input + nextIn;
      }
    }
  }

  lemma AfterChange(v0: View, v: View, v': View, n: nat, g: Shape)
    requires AfterInsert(v0, v, n, g) && v' == v.(mstart := v'.mstart, mlen := v'.mlen)
    ensures AfterInsert(v0, v', n, g)
  {
  }

  /** The match in hand lies before the byte held back and does not reach past the data. */
  lemma HeldFits(v0: View, n: nat, g: Shape)
    requires Good(v0, n, g) && v0.held && v0.mlen >= MinMatch
    ensures v0.mlen - 1 <= v0.lookahead && v0.mstart < v0.strstart - 1
  {
  }

  /** The match in hand is told. */
  lemma HeldStep(v0: View, v': View, n: nat, g: Shape)
    requires Good(v0, n, g) && v0.held && v0.mlen >= MinMatch && !v'.held && v'.mlen < MinMatch
    requires v'.d == v0.d && v'.gone == v0.gone && v'.insert == v0.insert
    requires v'.strstart == v0.strstart + v0.mlen - 1 && v'.lookahead == v0.lookahead - v0.mlen + 1 && v0.mlen - 1 <= v0.lookahead
    requires v0.mstart < v0.strstart - 1 && v'.tokens == v0.tokens + [Match(v0.strstart - 1 - v0.mstart, v0.mlen)]
    requires Dict(n, g, v'.d, v'.c, v'.top) && |v'.insH| == g.bits && v'.top < v'.strstart - v'.insert && Rolling(g, v'.d, v'.insH, v'.strstart)
    ensures Good(v', n, g) && Input(v') == Input(v0)
  {
    TellMatch(v0, v', n, |v0.gone| + v0.mstart, v0.mlen);
    StepGood(v0, v', n, g, v0.mlen - 1);
  }

  /** A match found at strstart is in hand once strstart moves on by one. */
  lemma LaterMatch(v0: View, v': View, n: nat)
    requires v'.held && v'.d == v0.d && v'.gone == v0.gone && v'.strstart == v0.strstart + 1
    requires v'.mlen >= MinMatch ==> v'.mlen <= MaxMatch && IsMatch(n, v0.d, v'.mstart, v0.strstart, v'.mlen)
    ensures InHand(v', n)
  {
    if v'.mlen >= MinMatch { ShiftMatch(v0.gone, v0.d, v'.mstart, v0.strstart, v'.mlen); }
  }

  /** A literal told, and a step over it. */
  lemma LiteralStep(v0: View, v: View, v': View, n: nat, g: Shape)
    requires Good(v0, n, g) && AfterInsert(v0, v, n, g) && v.lookahead > 0
    requires var c := v.d[v.strstart - if v.held then 1 else 0];
      v' == v.(strstart := v.strstart + 1, lookahead := v.lookahead - 1, tokens := v.tokens + [Literal(c)])
    requires v.mlen >= MinMatch ==> v.held && v.mlen <= MaxMatch && IsMatch(n, v.d, v.mstart, v.strstart, v.mlen)
    ensures Good(v', n, g) && Input(v') == Input(v0)
  {
    TellLiteral(v0, v', n, v.d[v.strstart - if v.held then 1 else 0]);
    if v.held { LaterMatch(v0, v', n); }
    StepGood(v0, v', n, g, 1);
  }

  /** No match is in hand when only the byte held back is left. */
  lemma LastGood(v0: View, v': View, n: nat, g: Shape)
    requires Good(v0, n, g) && v0.held && v0.lookahead == 0
    requires v' == v0.(tokens := v0.tokens + [Literal(v0.d[v0.strstart - 1])], held := false)
    ensures Good(v', n, g) && Input(v') == Input(v0) && Told(v') == Told(v0) + 1
  {
    TellLiteral(v0, v', n, v0.d[v0.strstart - 1]);
  }

  /** The chains are emptied; with nothing ahead, the window is too. */
  lemma ClearedGood(v: View, v': View, n: nat, g: Shape)
    requires Good(v, n, g) && !v.held && |v'.c.head| == |v.c.head| && v'.c.prev == v.c.prev && |v'.c.owner| == n && v'.top == -1
    requires (forall i :: 0 <= i < |v'.c.head| ==> v'.c.head[i] == 0) && (forall j :: 0 <= j < n ==> v'.c.owner[j] == 0)
    requires v' == if v.lookahead == 0 then v.(c := v'.c, top := -1, d := [], strstart := 0, insert := 0, gone := v.gone + v.d)
                   else v.(c := v'.c, top := -1)
    ensures Good(v', n, g) && Input(v') == Input(v) && Told(v') == Told(v)
  {
    DictEmpty(n, g, v'.c);
    DictMore(n, g, [], v'.d, v'.c, -1);
    assert (v.gone + v.d) + [] == v.gone + v.d;
  }

  lemma LeftOver(v: View, v': View, n: nat, g: Shape)
    requires Good(v, n, g) && v.lookahead == 0 && !v.held
    requires v' == v.(insert := if v.strstart < 2 then v.strstart else 2, top := if v.top < v.strstart - 3 then v.top else v.strstart - 3)
    ensures Good(v', n, g) && Input(v') == Input(v) && Told(v') == |Input(v')|
  {
    DictTop(n, g, v.d, v.c, v.top, v.strstart - 3);
    SameInput(v, v', n);
  }

  /** A match told, and a step over it. */
  lemma MatchStep(v0: View, v': View, n: nat, g: Shape, m: int, l: nat)
    requires Good(v0, n, g) && !v0.held && !v'.held && v'.mlen < MinMatch && v'.d == v0.d && v'.gone == v0.gone && v'.insert == v0.insert
    requires MinMatch <= l <= MaxMatch && l <= v0.lookahead && IsMatch(n, v0.d, m, v0.strstart, l)
    requires v'.strstart == v0.strstart + l && v'.lookahead == v0.lookahead - l && v'.tokens == v0.tokens + [Match(v0.strstart - m, l)]
    requires Dict(n, g, v'.d, v'.c, v'.top) && |v'.insH| == g.bits && v'.top < v'.strstart - v'.insert
    requires v'.lookahead >= MinMatch ==> Rolling(g, v'.d, v'.insH, v'.strstart)
    ensures Good(v', n, g) && Input(v') == Input(v0)
  {
    ShiftMatch(v0.gone, v0.d, m, v0.strstart, l);
    TellMatch(v0, v', n, |v0.gone| + m, l);
    StepGood(v0, v', n, g, l);
  }

  lemma ShiftMatch(a: seq<Byte>, d: seq<Byte>, m: int, s: int, l: int)
    requires Equal(d, m, s, l)
    ensures Equal(a + d, |a| + m, |a| + s, l)
  {
    assert (a + d)[|a| + m..|a| + m + l] == d[m..m + l] && (a + d)[|a| + s..|a| + s + l] == d[s..s + l];
  }

  /** Only the running hash has changed. */
  lemma RehashedFresh(v: View, v': View, n: nat, g: Shape)
    requires Fresh(v, n, g) && v' == v.(insH := v'.insH) && |v'.insH| == g.bits
    ensures Fresh(v', n, g) && Input(v') == Input(v) && Told(v') == Told(v)
  {
    SameInput(v, v', n);
  }

  lemma Moved(a: seq<Byte>, d: seq<Byte>, x: seq<Byte>, n: nat)
    requires n <= |x|
    ensures (a + (d + x[..n])) + x[n..] == (a + d) + x
  {
  }
}
