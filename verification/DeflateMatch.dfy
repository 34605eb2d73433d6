/** Tokens of deflate and what they stand for, and the search for the longest match
    (longest_match in deflate.c, _tr_tally in deflate.h). */
module DeflateMatch {
  import opened Sequences
  import opened InflateWindow
  import opened DeflateHash

  const MinMatch: nat := 3
  const MaxMatch: nat := 258
  const MinLookahead: nat := 262

  // ---- Tokens ----

  datatype Token = Literal(c: Byte) | Match(dist: nat, len: nat)

  /** What tokens stand for, by the rule inflate follows. */
  ghost function Expand(ts: seq<Token>): seq<Byte> {
    if |ts| == 0 then []
    else
      var h := Expand(ts[..|ts| - 1]);
      match ts[|ts| - 1]
      case Literal(c) => h + [c]
      case Match(dist, len) => if Reaches(h, dist) then Copied(h, dist, len) else h
  }

  /** A token that may follow a history. */
  ghost predicate Fit(t: Token, h: seq<Byte>, maxDist: int) {
    t.Match? ==> Reaches(h, t.dist) && t.dist <= maxDist && MinMatch <= t.len <= MaxMatch
  }

  /** The tokens stand for out, and every match lies within the distance and has a legal length. */
  ghost predicate Encodes(ts: seq<Token>, out: seq<Byte>, maxDist: int) {
    && Expand(ts) == out
    && forall i :: 0 <= i < |ts| ==> Fit(ts[i], Expand(ts[..i]), maxDist)
  }

  lemma EncodesMore(ts: seq<Token>, out: seq<Byte>, maxDist: int, t: Token, out': seq<Byte>)
    requires Encodes(ts, out, maxDist) && Fit(t, out, maxDist)
    requires out' == if t.Literal? then out + [t.c] else Copied(out, t.dist, t.len)
    ensures Encodes(ts + [t], out', maxDist)
  {
    var us := ts + [t];
    assert us[..|ts|] == ts;
    forall i | 0 <= i < |us| ensures Fit(us[i], Expand(us[..i]), maxDist) {
      if i < |ts| {
        assert us[..i] == ts[..i];
        assert Fit(ts[i], Expand(ts[..i]), maxDist);
      }
    }
  }

  /** The strings of l bytes at m and s are equal. */
  ghost predicate Equal(d: seq<Byte>, m: int, s: int, l: int) {
    0 <= m <= s && 0 <= l && s + l <= |d| && d[m..m + l] == d[s..s + l]
  }

  lemma EqualMore(d: seq<Byte>, m: int, s: int, l: int)
    requires Equal(d, m, s, l) && s + l < |d| && d[m + l] == d[s + l]
    ensures Equal(d, m, s, l + 1)
  {
    assert d[m..m + l + 1] == d[m..m + l] + [d[m + l]];
    assert d[s..s + l + 1] == d[s..s + l] + [d[s + l]];
  }

  lemma EqualPart(w: seq<Byte>, d: seq<Byte>, m: int, s: int, l: int, r: int)
    requires Equal(w, m, s, l) && d <= w && 0 <= r <= l && s + r <= |d|
    ensures Equal(d, m, s, r)
  {
    assert d[m..m + r] == w[m..m + l][..r];
    assert d[s..s + r] == w[s..s + l][..r];
  }

  /** The last byte of a match. */
  lemma OneCopied(d: seq<Byte>, m: int, s: int, l: nat)
    requires Equal(d, m, s, l) && m < s && l > 0
    ensures var e := d[..s + (l - 1)]; Reaches(e, s - m) && Copied(e, s - m, 1) == d[..s + l]
  {
    var e, k := d[..s + (l - 1)], s - m;
    assert d[m..m + l][l - 1] == d[s..s + l][l - 1];
    assert e[|e| - k] == d[m + (l - 1)] == d[s + (l - 1)];
    assert e + [d[s + (l - 1)]] == d[..s + l];
    assert Copied(e, k, 1) == Copied(e + [e[|e| - k]], k, 0);
  }

  /** A match that repeats an earlier string stands for the string. */
  lemma {:induction false} MatchExpands(d: seq<Byte>, m: int, s: int, l: nat)
    requires Equal(d, m, s, l) && m < s
    ensures Reaches(d[..s], s - m) && Copied(d[..s], s - m, l) == d[..s + l]
    decreases l
  {
    if l > 0 {
      EqualPart(d, d, m, s, l, l - 1);
      MatchExpands(d, m, s, l - 1);
      CopiedAdd(d[..s], s - m, l - 1, 1);
      OneCopied(d, m, s, l);
    }
  }

  // ---- Searching ----

  /** How far the strings at m and s agree, at most 258 bytes, when the first three are known to. */
  method MatchLength(window: seq<Byte>, m: nat, s: nat) returns (len: nat)
    requires m < s && s + MaxMatch <= |window|
    requires window[m] == window[s] && window[m + 1] == window[s + 1] && window[m + 2] == window[s + 2]
    ensures MinMatch <= len <= MaxMatch && Equal(window, m, s, len)
    ensures len < MaxMatch ==> window[m + len] != window[s + len]
  {
    assert window[m..m + 3] == [window[m], window[m + 1], window[m + 2]];
    assert window[s..s + 3] == [window[s], window[s + 1], window[s + 2]];
    len := 3;
    while len < MaxMatch && window[s + len] == window[m + len]
      invariant 3 <= len <= MaxMatch && Equal(window, m, s, len)
    {
      EqualMore(window, m, s, len);
      len := len + 1;
    }
  }

  /** What longest_match relies on: the chain of the string at s, in data d. */
  ghost predicate OnChain(n: nat, g: Shape, d: seq<Byte>, c: Chains, s: int, v: int) {
    && n > MinLookahead && |c.prev| == n && 0 < v < s && s + 2 < |d| && s - v <= n - MinLookahead
    && ChainSealed(9, n, g, d, c, s, v)
  }

  ghost predicate SameChain(n: nat, g: Shape, d: seq<Byte>, c: Chains, s: int, v: int) {
    && n > 0 && |c.owner| == n && 0 <= s && s + 2 < |d| && GoodShape(g)
    && Linked(n, Keys(g, d), c, s) && Named(n, Keys(g, d), c, s, v) && Keys(g, d)[v] == Keys(g, d)[s]
  }

  /** SameChain, with a count that only keeps the verifier from looking inside. */
  ghost predicate ChainSealed(k: nat, n: nat, g: Shape, d: seq<Byte>, c: Chains, s: int, v: int)
    decreases k, |d|
  {
    if k == 0 then SameChain(n, g, d, c, s, v) else ChainSealed(k - 1, n, g, d, c, s, v)
  }

  lemma {:induction false} ChainSeal(k: nat, n: nat, g: Shape, d: seq<Byte>, c: Chains, s: int, v: int)
    ensures ChainSealed(k, n, g, d, c, s, v) == SameChain(n, g, d, c, s, v)
  {
    if k > 0 { ChainSeal(k - 1, n, g, d, c, s, v); }
  }

  /** On a chain, equal first and second bytes force equal third bytes. */
  lemma ThirdEqual(n: nat, g: Shape, d: seq<Byte>, c: Chains, s: int, v: int)
    requires OnChain(n, g, d, c, s, v) && d[v] == d[s] && d[v + 1] == d[s + 1]
    ensures d[v + 2] == d[s + 2]
  {
    ChainSeal(9, n, g, d, c, s, v);
    KeyFixesThird(g, d[s], d[s + 1], d[v + 2], d[s + 2]);
  }

  lemma NextOnChain(n: nat, g: Shape, d: seq<Byte>, c: Chains, s: int, v: int)
    requires OnChain(n, g, d, c, s, v)
    ensures var q := c.prev[SlotOf(v, n)]; q == 0 || (0 < q < v && (s - q <= n - MinLookahead ==> OnChain(n, g, d, c, s, q)))
  {
    ChainSeal(9, n, g, d, c, s, v);
    FollowChain(n, Keys(g, d), c, s, v);
    ChainSeal(9, n, g, d, c, s, c.prev[SlotOf(v, n)]);
  }

  /** A match of l bytes at s, within the distance. */
  ghost predicate IsMatch(n: nat, d: seq<Byte>, m: int, s: int, l: int) {
    0 < m < s && s - m <= n - MinLookahead && Equal(d, m, s, l)
  }

  // ---- How far strings agree, and which are looked at ----

  /** How far the strings at m and s agree, from k bytes on: at most 258 bytes, within the data. */
  ghost function Agree(d: seq<Byte>, m: int, s: int, k: nat): (r: nat)
    ensures k <= r && (k <= MaxMatch ==> r <= MaxMatch)
    decreases MaxMatch - k
  {
    if k < MaxMatch && 0 <= m < s && s + k < |d| && d[m + k] == d[s + k] then Agree(d, m, s, k + 1) else k
  }

  /** Where the agreement ends. */
  lemma {:induction false} AgreeEnds(d: seq<Byte>, m: int, s: int, k: nat, l: nat)
    requires m < s && Equal(d, m, s, l) && k <= l <= MaxMatch
    requires l == MaxMatch || s + l == |d| || d[m + l] != d[s + l]
    ensures Agree(d, m, s, k) == l
    decreases l - k
  {
    if k < l {
      assert d[m..m + l][k] == d[s..s + l][k];
      AgreeEnds(d, m, s, k + 1, l);
    }
  }

  /** It does not go past a difference. */
  lemma {:induction false} AgreeStops(d: seq<Byte>, m: int, s: int, k: nat, l: nat)
    requires 0 <= m < s && k <= l && (s + l >= |d| || d[m + l] != d[s + l] || l >= MaxMatch)
    ensures Agree(d, m, s, k) <= l
    decreases l - k
  {
    if k < l && k < MaxMatch && s + k < |d| && d[m + k] == d[s + k] { AgreeStops(d, m, s, k + 1, l); }
  }

  /** Less data, less agreement. */
  lemma {:induction false} AgreePart(w: seq<Byte>, d: seq<Byte>, m: int, s: int, k: nat)
    requires d <= w && 0 <= m < s && s + k <= |d|
    ensures Agree(d, m, s, k) == if Agree(w, m, s, k) <= |d| - s then Agree(w, m, s, k) else |d| - s
    decreases MaxMatch - k
  {
    if k < MaxMatch && s + k < |d| && d[m + k] == d[s + k] { AgreePart(w, d, m, s, k + 1); }
  }

  /** The positions that a search follows from cur on: down the chain, above the limit, and as many as
      chain says, if it is positive. */
  ghost function Followed(prev: seq<int>, n: nat, cur: nat, limit: int, chain: int): seq<int>
    requires 0 < n <= |prev|
    decreases cur
  {
    var q := prev[SlotOf(cur, n)];
    [cur] + if 0 <= q < cur && q > limit && chain - 1 != 0 then Followed(prev, n, q, limit, chain - 1) else []
  }

  ghost function LimitOf(strstart: nat, wsize: nat): int {
    if strstart > wsize - MinLookahead then strstart - (wsize - MinLookahead) else 0
  }

  ghost function ChainOf(maxChain: int, prevLength: nat, goodMatch: nat): int { if prevLength >= goodMatch then maxChain / 4 else maxChain }

  ghost function NiceOf(niceMatch: nat, lookahead: nat): nat { if niceMatch > lookahead then lookahead else niceMatch }

  /** None of the positions agrees with the string at s on more than r bytes. */
  ghost predicate NoneBetter(d: seq<Byte>, s: int, f: seq<int>, r: int) { forall v :: v in f ==> Agree(d, v, s, 0) <= r }

  /** The outcome of a search: if r is more than prevLength it is the full agreement of the string at start,
      one of those followed; and none of those agrees on more, unless r was nice enough to stop at. */
  ghost predicate Best(d: seq<Byte>, s: int, f: seq<int>, prevLength: nat, nice: nat, r: nat, start: int) {
    && (r > prevLength ==> start in f && Agree(d, start, s, 0) == r)
    && (NoneBetter(d, s, f, r) || (r > prevLength && r >= nice))
  }

  /** The length of the match at cur, or 0 if it cannot be longer than bestLen. */
  method Candidate(window: seq<Byte>, cur: nat, strstart: nat, bestLen: nat,
                   ghost n: nat, ghost g: Shape, ghost d: seq<Byte>, ghost c: Chains) returns (len: nat)
    requires OnChain(n, g, d, c, strstart, cur) && d <= window && strstart + MinLookahead <= |window| && 1 <= bestLen <= MaxMatch
    ensures len == 0 || (MinMatch <= len <= MaxMatch && Equal(window, cur, strstart, len))
    ensures if len == 0 then Agree(window, cur, strstart, 0) <= bestLen else Agree(window, cur, strstart, 0) == len
  {
    if window[cur + bestLen] != window[strstart + bestLen] || window[cur + bestLen - 1] != window[strstart + bestLen - 1]
       || window[cur] != window[strstart] || window[cur + 1] != window[strstart + 1]
    {
      Differs(window, cur, strstart, bestLen);
      return 0;
    }
    ThirdEqual(n, g, d, c, strstart, cur);
    len := MatchLength(window, cur, strstart);
    EqualAgrees(window, cur, strstart, len);
  }

  lemma Differs(w: seq<Byte>, m: nat, s: nat, l: nat)
    requires m < s && s + l < |w| && 1 <= l <= MaxMatch
    requires w[m + l] != w[s + l] || w[m + l - 1] != w[s + l - 1] || w[m] != w[s] || w[m + 1] != w[s + 1]
    ensures Agree(w, m, s, 0) <= l
  {
    if w[m + l] != w[s + l] {
      AgreeStops(w, m, s, 0, l);
    } else if w[m + l - 1] != w[s + l - 1] {
      AgreeStops(w, m, s, 0, l - 1);
    } else if w[m] != w[s] {
      AgreeStops(w, m, s, 0, 0);
    } else {
      AgreeStops(w, m, s, 0, 1);
    }
  }

  lemma EqualAgrees(w: seq<Byte>, m: nat, s: nat, l: nat)
    requires m < s && Equal(w, m, s, l) && l <= MaxMatch && s + MaxMatch <= |w| && (l < MaxMatch ==> w[m + l] != w[s + l])
    ensures Agree(w, m, s, 0) == l
  {
    AgreeEnds(w, m, s, 0, l);
  }

  /** What the search has found among the positions done. */
  ghost predicate Sofar(w: seq<Byte>, s: int, done: seq<int>, prevLength: nat, best: nat, start: int) {
    NoneBetter(w, s, done, best) && (best > prevLength ==> start in done && Agree(w, start, s, 0) == best)
  }

  lemma SofarMore(w: seq<Byte>, s: int, done: seq<int>, prevLength: nat, best: nat, start: int, cur: int, len: nat)
    requires Sofar(w, s, done, prevLength, best, start) && prevLength <= best
    requires if len == 0 then Agree(w, cur, s, 0) <= best else Agree(w, cur, s, 0) == len
    ensures if len > best then Sofar(w, s, done + [cur], prevLength, len, cur) else Sofar(w, s, done + [cur], prevLength, best, start)
  {
  }

  /** At the end, within the data. */
  lemma SofarBest(w: seq<Byte>, d: seq<Byte>, s: int, f: seq<int>, prevLength: nat, best: nat, start: int)
    requires Sofar(w, s, f, prevLength, best, start) && d <= w && s <= |d| && forall v :: v in f ==> 0 <= v < s
    ensures var r := if best <= |d| - s then best else |d| - s;
      NoneBetter(d, s, f, r) && (r > prevLength ==> start in f && Agree(d, start, s, 0) == r)
  {
    forall v | v in f ensures Agree(d, v, s, 0) == if Agree(w, v, s, 0) <= |d| - s then Agree(w, v, s, 0) else |d| - s {
      AgreePart(w, d, v, s, 0);
    }
  }

  /** The positions done are the first of all; they are all, or the last was nice enough to stop at. */
  ghost predicate Covered(done: seq<int>, all: seq<int>, s: int) { done <= all && forall v :: v in done ==> 0 <= v < s }

  lemma CoveredMore(done: seq<int>, all: seq<int>, rest: seq<int>, s: int, cur: int)
    requires Covered(done, all, s) && done + rest == all && |rest| > 0 && rest[0] == cur && 0 <= cur < s
    ensures Covered(done + [cur], all, s) && (done + [cur]) + rest[1..] == all
  {
    assert rest == [cur] + rest[1..];
  }

  /** Follows the chain from cur: the longest agreement found, and where. */
  method ChainSearch(window: seq<Byte>, prev: seq<int>, wsize: nat, strstart: nat, prevLength: nat,
                     curMatch0: nat, matchStart0: int, chain0: int, limit: int, nice: nat,
                     ghost g: Shape, ghost d: seq<Byte>, ghost c: Chains) returns (bestLen: nat, matchStart: int, ghost done: seq<int>)
    requires |prev| == wsize && c.prev == prev && d <= window && strstart + MinLookahead <= |window| && 1 <= prevLength <= MaxMatch
    requires OnChain(wsize, g, d, c, strstart, curMatch0) && limit == LimitOf(strstart, wsize)
    ensures prevLength <= bestLen <= MaxMatch
    ensures bestLen > prevLength ==>
              0 < matchStart < strstart && strstart - matchStart <= wsize - MinLookahead && Equal(window, matchStart, strstart, bestLen)
    ensures Sofar(window, strstart, done, prevLength, bestLen, matchStart)
    ensures var all := Followed(prev, wsize, curMatch0, limit, chain0);
      Covered(done, all, strstart) && (done == all || (bestLen > prevLength && bestLen >= nice))
  {
    var chain := chain0;
    bestLen, matchStart := prevLength, matchStart0;
    var cur := curMatch0;
    done := [];
    ghost var all := Followed(prev, wsize, cur, limit, chain);
    while true
      invariant OnChain(wsize, g, d, c, strstart, cur) && prevLength <= bestLen <= MaxMatch
      invariant bestLen > prevLength ==>
                  0 < matchStart < strstart && strstart - matchStart <= wsize - MinLookahead && Equal(window, matchStart, strstart, bestLen)
      invariant Sofar(window, strstart, done, prevLength, bestLen, matchStart) && Covered(done, all, strstart)
      invariant done + Followed(prev, wsize, cur, limit, chain) == all
      decreases cur
    {
      var len := Candidate(window, cur, strstart, bestLen, wsize, g, d, c);
      SofarMore(window, strstart, done, prevLength, bestLen, matchStart, cur, len);
      CoveredMore(done, all, Followed(prev, wsize, cur, limit, chain), strstart, cur);
      done := done + [cur];
      if len > bestLen {
        matchStart := cur;
        bestLen := len;
        if len >= nice {
          return;
        }
      }
      NextOnChain(wsize, g, d, c, strstart, cur);
      var next := prev[SlotOf(cur, wsize)];
      FollowedRest(prev, wsize, cur, limit, chain);
      chain := chain - 1;
      if next <= limit || chain == 0 {
        assert done + [] == done;
        return;
      }
      cur := next;
    }
  }

  lemma FollowedRest(prev: seq<int>, n: nat, cur: nat, limit: int, chain: int)
    requires 0 < n <= |prev| && limit >= 0
    ensures var q := prev[SlotOf(cur, n)]; var f := Followed(prev, n, cur, limit, chain);
      && f[0] == cur && (q <= limit || chain - 1 == 0 ==> f[1..] == [])
      && (limit < q < cur && chain - 1 != 0 ==> f[1..] == Followed(prev, n, q, limit, chain - 1))
  {
  }

  /** longest_match: a length that is not more than prevLength means nothing was found; a greater
      one is that of a match at matchStart, the longest of those followed. */
  method LongestMatch(window: seq<Byte>, prev: seq<int>, wsize: nat, strstart: nat, lookahead: nat, prevLength: nat,
                      curMatch0: nat, matchStart0: int, chain0: int, goodMatch: nat, niceMatch0: nat,
                      ghost g: Shape, ghost d: seq<Byte>, ghost c: Chains) returns (r: nat, matchStart: int)
    requires |prev| == wsize && c.prev == prev && strstart + lookahead <= |window| && d == window[..strstart + lookahead]
    requires strstart + MinLookahead <= |window| && 1 <= prevLength <= MaxMatch
    requires OnChain(wsize, g, d, c, strstart, curMatch0)
    ensures r <= lookahead && r <= MaxMatch && (r >= prevLength || r == lookahead)
    ensures r > prevLength ==> IsMatch(wsize, d, matchStart, strstart, r)
    ensures Best(d, strstart, Followed(prev, wsize, curMatch0, LimitOf(strstart, wsize), ChainOf(chain0, prevLength, goodMatch)),
                 prevLength, NiceOf(niceMatch0, lookahead), r, matchStart)
  {
    var chain := if prevLength >= goodMatch then chain0 / 4 else chain0;
    var nice := if niceMatch0 > lookahead then lookahead else niceMatch0;
    var limit := if strstart > wsize - MinLookahead then strstart - (wsize - MinLookahead) else 0;
    var bestLen;
    ghost var done;
    bestLen, matchStart, done := ChainSearch(window, prev, wsize, strstart, prevLength, curMatch0, matchStart0, chain, limit, nice, g, d, c);
    r := if bestLen <= lookahead then bestLen else lookahead;
    if r > prevLength { EqualPart(window, d, matchStart, strstart, bestLen, r); }
    SofarBest(window, d, strstart, done, prevLength, bestLen, matchStart);
    ghost var all := Followed(prev, wsize, curMatch0, limit, chain);
    BestOf(d, strstart, done, all, prevLength, nice, r, matchStart, lookahead);
  }

  lemma BestOf(d: seq<Byte>, s: int, done: seq<int>, all: seq<int>, prevLength: nat, nice: nat, r: nat, start: int, lookahead: nat)
    requires Covered(done, all, s) && NoneBetter(d, s, done, r) && (r > prevLength ==> start in done && Agree(d, start, s, 0) == r)
    requires 0 <= s && |d| == s + lookahead && (done == all || (r > prevLength && r >= nice) || r == lookahead)
    ensures Best(d, s, all, prevLength, nice, r, start)
  {
    if r == lookahead {
      forall v | v in all ensures Agree(d, v, s, 0) <= r {
        AgreeWithin(d, v, s, 0);
      }
    }
  }

  lemma {:induction false} AgreeWithin(d: seq<Byte>, m: int, s: int, k: nat)
    requires 0 <= s && s + k <= |d|
    ensures Agree(d, m, s, k) <= |d| - s
    decreases MaxMatch - k
  {
    if k < MaxMatch && 0 <= m < s && s + k < |d| && d[m + k] == d[s + k] { AgreeWithin(d, m, s, k + 1); }
  }
}
