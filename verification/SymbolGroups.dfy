/** The symbols of a block in groups of 50, each group coded by the table its selector names:
    choosing the tables and writing the codes (sendMTFValues in compress.c), and reading them
    back (GET_MTF_VAL in decompress.c). */
module SymbolGroups {
  import opened Sequences
  import opened Bits
  import opened BitIO
  import opened CanonicalCode
  import opened HuffmanTree
  import opened HuffmanLengths
  import opened CodingTables

  const GroupSize: nat := 50

  /** A definition guarded by "for every u with UnfoldKraft(u)" stays folded for the verifier until
      UnfoldKraft is mentioned. */
  ghost predicate UnfoldKraft(u: int) { true }

  /** Lengths a decoder accepts and that leave no code ambiguous; Kraft's inequality is kept
      folded until unfolded. */
  ghost predicate Decodable(len: seq<int>) {
    && Between(len, 1, LongestCode)
    && forall u {:trigger UnfoldKraft(u)} :: UnfoldKraft(u) ==> KraftSum(len, LongestCode) <= Pow2(LongestCode)
  }

  lemma CompleteIsDecodable(len: seq<int>, maxLen: nat)
    requires CompleteCode(len, maxLen) && maxLen <= LongestCode
    ensures Decodable(len)
  {
    KraftScale(len, maxLen, LongestCode);
    Pow2Add(maxLen, LongestCode - maxLen);
  }

  /** Every symbol has a table, and a code in it. */
  ghost predicate Coded(syms: seq<int>, lens: seq<seq<int>>, sel: seq<int>, alphaSize: nat) {
    && InRange(syms, alphaSize) && InRange(sel, |lens|) && |syms| <= GroupSize * |sel|
    && forall t :: 0 <= t < |lens| ==> |lens[t]| == alphaSize && Decodable(lens[t])
  }

  ghost function TableFor(lens: seq<seq<int>>, sel: seq<int>, i: nat): seq<int>
    requires InRange(sel, |lens|) && i / GroupSize < |sel|
  {
    lens[sel[i / GroupSize]]
  }

  /** The codes of the symbols from the i-th on. */
  ghost function SymbolBits(syms: seq<int>, lens: seq<seq<int>>, sel: seq<int>, alphaSize: nat, i: nat): seq<bool>
    requires Coded(syms, lens, sel, alphaSize) && i <= |syms|
    decreases |syms| - i
  {
    if i == |syms| then []
    else CodeBits(TableFor(lens, sel, i), syms[i]) + SymbolBits(syms, lens, sel, alphaSize, i + 1)
  }

  // ---- Choosing the tables ----

  function Cost(len: seq<int>, group: seq<int>): int
    requires InRange(group, |len|)
  {
    if |group| == 0 then 0 else Cost(len, group[..|group| - 1]) + len[group[|group| - 1]]
  }

  lemma {:induction false} CostBound(len: seq<int>, group: seq<int>)
    requires InRange(group, |len|) && Between(len, 0, 255)
    ensures 0 <= Cost(len, group) <= 255 * |group|
  {
    if |group| > 0 { CostBound(len, group[..|group| - 1]); }
  }

  method CostOf(len: seq<int>, group: seq<int>) returns (cost: int)
    requires InRange(group, |len|)
    ensures cost == Cost(len, group)
  {
    cost := 0;
    for i := 0 to |group|
      invariant cost == Cost(len, group[..i])
    {
      assert group[..i + 1][..i] == group[..i];
      cost := cost + len[group[i]];
    }
    assert group[..|group|] == group;
  }

  /** No table codes the group in fewer bits. */
  ghost predicate Cheapest(lens: seq<seq<int>>, group: seq<int>, bt: int) {
    && 0 <= bt < |lens| && (forall t :: 0 <= t < |lens| ==> InRange(group, |lens[t]|))
    && forall t :: 0 <= t < |lens| ==> Cost(lens[bt], group) <= Cost(lens[t], group)
  }

  /** The table that codes a group in the fewest bits. */
  method CheapestTable(lens: seq<seq<int>>, group: seq<int>, alphaSize: nat) returns (bt: int)
    requires |lens| > 0 && InRange(group, alphaSize) && |group| <= GroupSize
    requires forall t :: 0 <= t < |lens| ==> |lens[t]| == alphaSize && Between(lens[t], 0, 255)
    ensures 0 <= bt < |lens|
    ensures Cheapest(lens, group, bt)
  {
    var bc := 999999999;
    bt := -1;
    for t := 0 to |lens|
      invariant -1 <= bt < t && (t > 0 ==> 0 <= bt)
      invariant if bt < 0 then bc == 999999999 else bc == Cost(lens[bt], group)
      invariant forall u :: 0 <= u < t ==> bc <= Cost(lens[u], group)
    {
      CostBound(lens[t], group);
      var cost := CostOf(lens[t], group);
      if cost < bc {
        bc := cost;
        bt := t;
      }
    }
  }

  lemma {:induction false} BumpTotal(f: seq<int>, x: nat)
    requires x < |f| && f[x] >= 0
    ensures FreqTotal(f[x := f[x] + 1]) <= FreqTotal(f) + 1
    decreases |f|
  {
    var n := |f| - 1;
    if x < n {
      assert f[x := f[x] + 1][..n] == f[..n][x := f[..n][x] + 1];
      BumpTotal(f[..n], x);
    } else {
      assert f[x := f[x] + 1][..n] == f[..n];
    }
  }

  lemma {:induction false} ZeroTotal(n: nat)
    ensures FreqTotal(seq(n, _ => 0)) == n
  {
    if n > 0 {
      ZeroTotal(n - 1);
      assert seq(n, _ => 0)[..n - 1] == seq(n - 1, _ => 0);
    }
  }

  /** Frequencies of one alphabet, no more than n symbols counted in each table. */
  ghost predicate Frequencies(rfreq: seq<seq<int>>, nGroups: nat, alphaSize: nat, n: nat) {
    && |rfreq| == nGroups
    && forall t :: 0 <= t < nGroups ==> |rfreq[t]| == alphaSize && FreqTotal(rfreq[t]) <= alphaSize + n
                                        && forall v :: 0 <= v < alphaSize ==> rfreq[t][v] >= 0
  }

  function Clip(i: nat, n: nat): (r: nat)
    ensures r <= n
  {
    if i < n then i else n
  }

  /** The g-th group of symbols; the last may be shorter than the others. */
  ghost function Group(syms: seq<int>, g: nat): seq<int> {
    syms[Clip(GroupSize * g, |syms|)..Clip(GroupSize * g + GroupSize, |syms|)]
  }

  /** The symbols of those of the first g groups that select table t. */
  ghost function Routed(syms: seq<int>, sel: seq<int>, t: int, g: nat): seq<int>
    requires g <= |sel|
  {
    if g == 0 then [] else Routed(syms, sel, t, g - 1) + (if sel[g - 1] == t then Group(syms, g - 1) else [])
  }

  /** A further selector does not disturb the groups before it. */
  lemma {:induction false} RoutedBefore(syms: seq<int>, sel: seq<int>, bt: int, t: int, g: nat)
    requires g <= |sel|
    ensures Routed(syms, sel + [bt], t, g) == Routed(syms, sel, t, g)
  {
    if g > 0 { RoutedBefore(syms, sel, bt, t, g - 1); }
  }

  lemma {:induction false} CountJoined(s: seq<int>, t: seq<int>, v: int)
    ensures Count(s + t, v) == Count(s, v) + Count(t, v)
  {
    if |t| == 0 {
      assert s + t == s;
    } else {
      CountJoined(s, t[..|t| - 1], v);
      assert (s + t)[..|s + t| - 1] == s + t[..|t| - 1];
    }
  }

  /** f is how often table t is to code each symbol. */
  ghost predicate Uses(f: seq<int>, syms: seq<int>, sel: seq<int>, t: int) {
    forall v :: 0 <= v < |f| ==> f[v] == Count(Routed(syms, sel, t, |sel|), v)
  }

  lemma UsesNext(f: seq<int>, f': seq<int>, syms: seq<int>, sel: seq<int>, bt: int, t: int)
    requires Uses(f, syms, sel, t) && |f| == |f'|
    requires forall v :: 0 <= v < |f| ==> f'[v] == f[v] + (if t == bt then Count(Group(syms, |sel|), v) else 0)
    ensures Uses(f', syms, sel + [bt], t)
  {
    RoutedBefore(syms, sel, bt, t, |sel|);
    var r := Routed(syms, sel, t, |sel|);
    assert Routed(syms, sel + [bt], t, |sel + [bt]|) == r + (if t == bt then Group(syms, |sel|) else []);
    forall v | 0 <= v < |f'| ensures f'[v] == Count(Routed(syms, sel + [bt], t, |sel + [bt]|), v) {
      CountJoined(r, if t == bt then Group(syms, |sel|) else [], v);
    }
  }

  /** Every symbol of the groups that have a selector is counted in the table it names. */
  ghost predicate Tallied(rfreq: seq<seq<int>>, syms: seq<int>, sel: seq<int>) {
    forall t :: 0 <= t < |rfreq| ==> Uses(rfreq[t], syms, sel, t)
  }

  lemma TalliedNext(rfreq: seq<seq<int>>, f: seq<int>, syms: seq<int>, sel: seq<int>, bt: int)
    requires Tallied(rfreq, syms, sel) && 0 <= bt < |rfreq| && |f| == |rfreq[bt]|
    requires forall v :: 0 <= v < |f| ==> f[v] == rfreq[bt][v] + Count(Group(syms, |sel|), v)
    ensures Tallied(rfreq[bt := f], syms, sel + [bt])
  {
    var r, sel' := rfreq[bt := f], sel + [bt];
    forall t | 0 <= t < |r| ensures Uses(r[t], syms, sel', t) {
      UsesNext(rfreq[t], r[t], syms, sel, bt, t);
    }
  }

  method CountGroup(rfreq: seq<seq<int>>, bt: int, group: seq<int>, ghost nGroups: nat, ghost alphaSize: nat, ghost n: nat,
                    ghost syms: seq<int>, ghost sel: seq<int>)
      returns (r: seq<seq<int>>)
    requires Frequencies(rfreq, nGroups, alphaSize, n) && 0 <= bt < nGroups && InRange(group, alphaSize)
    requires Tallied(rfreq, syms, sel) && group == Group(syms, |sel|)
    ensures Frequencies(r, nGroups, alphaSize, n + |group|) && Tallied(r, syms, sel + [bt])
  {
    var f := rfreq[bt];
    for i := 0 to |group|
      invariant |f| == alphaSize && FreqTotal(f) <= alphaSize + n + i
      invariant forall v :: 0 <= v < alphaSize ==> f[v] == rfreq[bt][v] + Count(group[..i], v)
    {
      BumpTotal(f, group[i]);
      f := f[group[i] := f[group[i]] + 1];
      assert group[..i + 1][..i] == group[..i];
    }
    assert group[..|group|] == group;
    r := rfreq[bt := f];
    TalliedNext(rfreq, f, syms, sel, bt);
  }

  lemma GroupInRange(syms: seq<int>, g: nat, alphaSize: nat)
    requires InRange(syms, alphaSize)
    ensures InRange(Group(syms, g), alphaSize) && |Group(syms, g)| <= GroupSize
  {
  }

  /** One pass over the groups: picks a table for each and counts its symbols there. */
  method AssignGroups(mtfv: seq<int>, lens: seq<seq<int>>, alphaSize: nat) returns (selector: seq<int>, rfreq: seq<seq<int>>)
    requires |lens| > 0 && |mtfv| > 0 && InRange(mtfv, alphaSize)
    requires forall t :: 0 <= t < |lens| ==> |lens[t]| == alphaSize && Between(lens[t], 0, 255)
    ensures InRange(selector, |lens|) && GroupSize * (|selector| - 1) < |mtfv| <= GroupSize * |selector|
    ensures Frequencies(rfreq, |lens|, alphaSize, |mtfv|) && Tallied(rfreq, mtfv, selector)
    ensures forall g :: 0 <= g < |selector| ==> Cheapest(lens, Group(mtfv, g), selector[g])
  {
    ZeroTotal(alphaSize);
    rfreq := seq(|lens|, _ => seq(alphaSize, _ => 0));
    selector := [];
    var gs := 0;
    while gs < |mtfv|
      invariant 0 <= gs <= |mtfv| && InRange(selector, |lens|)
      invariant gs == GroupSize * |selector| || gs == |mtfv|
      invariant GroupSize * (|selector| - 1) < gs <= GroupSize * |selector|
      invariant Frequencies(rfreq, |lens|, alphaSize, gs) && Tallied(rfreq, mtfv, selector)
      invariant forall g :: 0 <= g < |selector| ==> Cheapest(lens, Group(mtfv, g), selector[g])
    {
      var ge := gs + GroupSize - 1;
      if ge >= |mtfv| { ge := |mtfv| - 1; }
      var group := mtfv[gs..ge + 1];
      assert group == Group(mtfv, |selector|);
      GroupInRange(mtfv, |selector|, alphaSize);
      var bt := CheapestTable(lens, group, alphaSize);
      rfreq := CountGroup(rfreq, bt, group, |lens|, alphaSize, gs, mtfv, selector);
      selector := selector + [bt];
      gs := ge + 1;
    }
  }

  /** The code MakeCodeLengths makes for the frequencies: none shorter for them, rescaled as often
      as a tree was too deep. */
  ghost predicate CodeFor(len: seq<int>, freq: seq<int>) {
    exists k: nat :: BestCode(len, freq, k, 17) && GivenUp(freq, k, 17)
  }

  /** Code lengths for the counted frequencies. */
  method LengthsFor(rfreq: seq<seq<int>>, alphaSize: nat, ghost n: nat) returns (lens: seq<seq<int>>)
    requires 2 <= alphaSize <= 258 && Frequencies(rfreq, |rfreq|, alphaSize, n) && alphaSize + n < 0x800000
    ensures |lens| == |rfreq|
    ensures forall t :: 0 <= t < |lens| ==> |lens[t]| == alphaSize && CompleteCode(lens[t], 17) && CodeFor(lens[t], rfreq[t])
  {
    lens := [];
    for t := 0 to |rfreq|
      invariant |lens| == t
      invariant forall u :: 0 <= u < t ==> |lens[u]| == alphaSize && CompleteCode(lens[u], 17) && CodeFor(lens[u], rfreq[u])
    {
      var len := new int[258];
      ghost var k := MakeCodeLengths(len, rfreq[t], 17);
      lens := lens + [len[..alphaSize]];
    }
  }

  /** The number of coding tables for so many symbols. */
  function GroupCount(nMTF: nat): (n: nat)
    ensures 2 <= n <= 6
  {
    if nMTF < 200 then 2 else if nMTF < 600 then 3 else if nMTF < 1200 then 4 else if nMTF < 2400 then 5 else 6
  }

  /** A code for the symbols of the groups that select table t. */
  ghost predicate CodesRouted(len: seq<int>, syms: seq<int>, sel: seq<int>, t: int, alphaSize: nat) {
    exists freq :: |freq| == alphaSize && Uses(freq, syms, sel, t) && CodeFor(len, freq)
  }

  /** Each table is the code for the symbols of the groups that select it. */
  ghost predicate Fitted(syms: seq<int>, lens: seq<seq<int>>, sel: seq<int>, alphaSize: nat) {
    forall t :: 0 <= t < |lens| ==> CodesRouted(lens[t], syms, sel, t, alphaSize)
  }

  /** Four passes, each improving on the tables of the last, from any first tables. */
  method ChooseTables(mtfv: seq<int>, start: seq<seq<int>>, alphaSize: nat) returns (selector: seq<int>, lens: seq<seq<int>>)
    requires 2 <= alphaSize <= 258 && |start| > 0 && InRange(mtfv, alphaSize) && 0 < |mtfv| <= 900001
    requires forall t :: 0 <= t < |start| ==> |start[t]| == alphaSize && Between(start[t], 0, 255)
    ensures |lens| == |start| && Coded(mtfv, lens, selector, alphaSize) && Fitted(mtfv, lens, selector, alphaSize)
    ensures 0 < |selector| <= 18001
  {
    lens, selector := start, [];
    var iter := 0;
    while iter < 4
      invariant 0 <= iter <= 4 && |lens| == |start|
      invariant forall t :: 0 <= t < |lens| ==> |lens[t]| == alphaSize && Between(lens[t], 0, 255)
      invariant iter > 0 ==> Coded(mtfv, lens, selector, alphaSize) && 0 < |selector| <= 18001
      invariant iter > 0 ==> Fitted(mtfv, lens, selector, alphaSize)
    {
      var rfreq;
      selector, rfreq := AssignGroups(mtfv, lens, alphaSize);
      lens := LengthsFor(rfreq, alphaSize, |mtfv|);
      forall t | 0 <= t < |lens| ensures Decodable(lens[t]) && CodesRouted(lens[t], mtfv, selector, t, alphaSize) {
        CompleteIsDecodable(lens[t], 17);
      }
      iter := iter + 1;
    }
  }

  // ---- Writing ----

  method Extremes(length: seq<int>) returns (minLen: int, maxLen: int)
    requires |length| > 0 && Between(length, 1, LongestCode)
    ensures 1 <= minLen <= maxLen <= LongestCode && Between(length, minLen, maxLen) && Count(length, minLen) > 0
  {
    minLen, maxLen := 32, 0;
    for i := 0 to |length|
      invariant Between(length[..i], minLen, maxLen) && maxLen <= LongestCode
      invariant i > 0 ==> 1 <= minLen <= maxLen && Count(length[..i], minLen) > 0
      invariant i == 0 ==> minLen == 32 && maxLen == 0
    {
      CountNext(length, i, minLen);
      CountNext(length, i, length[i]);
      if length[i] > maxLen { maxLen := length[i]; }
      if length[i] < minLen { minLen := length[i]; }
      assert length[..i + 1] == length[..i] + [length[i]];
    }
    assert length[..|length|] == length;
  }

  ghost predicate IsCode(code: seq<int>, len: seq<int>) {
    && |code| == |len| && Between(len, 1, LongestCode)
    && forall v {:trigger code[v]} :: 0 <= v < |len| ==> code[v] == Code(len, v)
  }

  /** The codes of every table. */
  method AssignAll(lens: seq<seq<int>>, alphaSize: nat) returns (codes: seq<seq<int>>)
    requires 0 < alphaSize <= 258
    requires forall t :: 0 <= t < |lens| ==> |lens[t]| == alphaSize && Between(lens[t], 1, LongestCode)
    ensures |codes| == |lens| && forall t :: 0 <= t < |lens| ==> IsCode(codes[t], lens[t])
  {
    codes := [];
    for t := 0 to |lens|
      invariant |codes| == t && forall u :: 0 <= u < t ==> IsCode(codes[u], lens[u])
    {
      var minLen, maxLen := Extremes(lens[t]);
      var code := new int[258];
      AssignCodes(code, lens[t], minLen, maxLen);
      codes := codes + [code[..alphaSize]];
    }
  }

  lemma CodeFits(len: seq<int>, v: int)
    requires Decodable(len) && 0 <= v < |len|
    ensures 1 <= len[v] <= LongestCode && Code(len, v) < Pow2(len[v])
  {
    assert UnfoldKraft(0);
    CodeRange(len, v);
    KraftFits(len, len[v], LongestCode);
  }

  /** Writes one group. */
  method WriteGroup(w: BitWriter, mtfv: seq<int>, gs: nat, ge: nat, len: seq<int>, code: seq<int>,
                    ghost lens: seq<seq<int>>, ghost sel: seq<int>, ghost alphaSize: nat)
    requires w.Valid() && Coded(mtfv, lens, sel, alphaSize) && gs <= ge <= |mtfv| && |len| == alphaSize && IsCode(code, len)
    requires Decodable(len) && forall i :: gs <= i < ge ==> i / GroupSize < |sel| && TableFor(lens, sel, i) == len
    modifies w
    ensures w.Valid() && w.flushed == old(w.flushed)
    ensures w.written + SymbolBits(mtfv, lens, sel, alphaSize, ge) == old(w.written) + SymbolBits(mtfv, lens, sel, alphaSize, gs)
  {
    ghost var start := w.written;
    for i := gs to ge
      invariant w.Valid() && w.flushed == old(w.flushed)
      invariant w.written + SymbolBits(mtfv, lens, sel, alphaSize, i) == start + SymbolBits(mtfv, lens, sel, alphaSize, gs)
    {
      var v := mtfv[i];
      assert TableFor(lens, sel, i) == len;
      assert code[v] == Code(len, v);
      CodeFits(len, v);
      Assoc(w.written, CodeBits(len, v), SymbolBits(mtfv, lens, sel, alphaSize, i + 1));
      w.Write(len[v], code[v]);
    }
  }

  lemma GroupIndex(g: nat, i: nat)
    requires GroupSize * g <= i < GroupSize * g + GroupSize
    ensures i / GroupSize == g
  {
  }

  /** Writes the block data proper. */
  method WriteSymbols(w: BitWriter, mtfv: seq<int>, lens: seq<seq<int>>, selector: seq<int>, alphaSize: nat)
    requires w.Valid() && Coded(mtfv, lens, selector, alphaSize) && 0 < alphaSize <= 258
    modifies w
    ensures w.Appended(SymbolBits(mtfv, lens, selector, alphaSize, 0))
  {
    var codes := AssignAll(lens, alphaSize);
    ghost var start := w.written;
    var selCtr := 0;
    var gs := 0;
    while gs < |mtfv|
      invariant w.Valid() && w.flushed == old(w.flushed) && 0 <= gs <= |mtfv| && 0 <= selCtr
      invariant gs == GroupSize * selCtr || gs == |mtfv|
      invariant w.written + SymbolBits(mtfv, lens, selector, alphaSize, gs) == start + SymbolBits(mtfv, lens, selector, alphaSize, 0)
    {
      var ge := gs + GroupSize - 1;
      if ge >= |mtfv| { ge := |mtfv| - 1; }
      forall i | gs <= i < ge + 1 ensures i / GroupSize == selCtr {
        GroupIndex(selCtr, i);
      }
      assert 0 <= selCtr < |selector|;
      WriteGroup(w, mtfv, gs, ge + 1, lens[selector[selCtr]], codes[selector[selCtr]], lens, selector, alphaSize);
      gs := ge + 1;
      selCtr := selCtr + 1;
    }
    assert w.written + [] == w.written;
  }

  // ---- Reading ----

  /** Decode tables for every table of lengths. */
  method CreateTables(lens: seq<seq<int>>, alphaSize: nat) returns (tables: seq<Table>)
    requires 0 < alphaSize <= 258
    requires forall t :: 0 <= t < |lens| ==> |lens[t]| == alphaSize && Between(lens[t], 1, LongestCode)
    ensures |tables| == |lens| && forall t :: 0 <= t < |lens| ==> Decodes(tables[t], lens[t])
  {
    tables := [];
    for t := 0 to |lens|
      invariant |tables| == t && forall u :: 0 <= u < t ==> Decodes(tables[u], lens[u])
    {
      var minLen, maxLen := Extremes(lens[t]);
      var limit, base, perm := new int[23], new int[23], new int[258];
      CreateDecodeTables(limit, base, perm, lens[t], minLen, maxLen);
      tables := tables + [Table(minLen, limit[..], base[..], perm[..])];
    }
  }
}
