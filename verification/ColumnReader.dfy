/** From symbols back to the last column: the main loop of BZ2_decompress in decompress.c, over
    the sliding list of MtfCache and the symbols of SymbolReader. */
module ColumnReader {
  import opened Sequences
  import opened Bits
  import opened BitIO
  import opened MoveToFront
  import opened ColumnBuffer
  import opened SymbolReader

  // ---- What comes next in the symbols of a column ----

  /** How many characters at the front of l are c. */
  ghost function Leading(l: seq<int>, c: int): (z: nat)
    ensures z <= |l| && (forall k :: 0 <= k < z ==> l[k] == c) && (z < |l| ==> l[z] != c)
  {
    if |l| == 0 || l[0] != c then 0 else 1 + Leading(l[1..], c)
  }

  /** A pending run is written as soon as another character, or the end, comes. */
  lemma {:induction false} EncodePending(l: seq<int>, yy: seq<int>, z: nat)
    requires Codable(l, yy) && (|l| > 0 ==> l[0] != yy[0])
    ensures Encode(l, yy, z) == RunCode(z) + Encode(l, yy, 0)
  {
    assert RunCode(0) == [];
    if |l| > 0 {
      MovedToFront(yy, l[0]);
      var j := Index(yy, l[0]);
      Assoc(RunCode(z), [j + 1], Encode(l[1..], ToFront(yy, j), 0));
      assert [] + [j + 1] == [j + 1];
    }
  }

  lemma {:induction false} EncodeLeading(l: seq<int>, yy: seq<int>, z: nat)
    requires Codable(l, yy)
    ensures Encode(l, yy, z) == Encode(l[Leading(l, yy[0])..], yy, z + Leading(l, yy[0]))
    decreases |l|
  {
    if |l| > 0 && l[0] == yy[0] {
      EncodeLeading(l[1..], yy, z + 1);
      assert l[1..][Leading(l[1..], yy[0])..] == l[Leading(l, yy[0])..];
    } else {
      assert l[0..] == l;
    }
  }

  /** The code of a column begins with the run of its front symbol. */
  lemma EncodeRun(l: seq<int>, yy: seq<int>, z: nat, t: seq<int>)
    requires Codable(l, yy) && z == Leading(l, yy[0]) && t == l[z..]
    ensures Codable(t, yy) && Encode(l, yy, 0) == RunCode(z) + Encode(t, yy, 0)
  {
    assert Encode(l, yy, 0) == Encode(t, yy, z) by { EncodeLeading(l, yy, 0); }
    assert Encode(t, yy, z) == RunCode(z) + Encode(t, yy, 0) by {
      assert |t| > 0 ==> t[0] != yy[0];
      EncodePending(t, yy, z);
    }
  }

  lemma OtherPlace(l: seq<int>, yy: seq<int>) returns (j: nat)
    requires Codable(l, yy) && |l| > 0 && l[0] != yy[0]
    ensures j == Index(yy, l[0]) && 1 <= j < |yy| && yy[j] == l[0] && Codable(l[1..], ToFront(yy, j))
  {
    j := Index(yy, l[0]);
    MovedToFront(yy, l[0]);
  }

  /** Without a run it begins with the place of the next character. */
  lemma EncodeOther(l: seq<int>, yy: seq<int>, z: nat) returns (j: nat)
    requires Codable(l, yy) && |l| > 0 && l[0] != yy[0]
    ensures 1 <= j < |yy| && yy[j] == l[0] && Codable(l[1..], ToFront(yy, j))
    ensures Encode(l, yy, z) == RunCode(z) + [j + 1] + Encode(l[1..], ToFront(yy, j), 0)
  {
    j := OtherPlace(l, yy);
  }

  lemma EncodeOtherFirst(l: seq<int>, yy: seq<int>) returns (j: nat)
    requires Codable(l, yy) && |l| > 0 && l[0] != yy[0]
    ensures 1 <= j < |yy| && yy[j] == l[0] && Codable(l[1..], ToFront(yy, j))
    ensures Encode(l, yy, 0) == [j + 1] + Encode(l[1..], ToFront(yy, j), 0)
  {
    var z: nat := 0;
    j := EncodeOther(l, yy, z);
    assert RunCode(z) + [j + 1] == [j + 1];
  }

  lemma RunCodeHead(z: nat)
    requires z > 0
    ensures |RunCode(z)| > 0 && (RunCode(z)[0] == RUNA || RunCode(z)[0] == RUNB)
  {
  }

  /** What the next symbol says about the column. */
  lemma NextMeans(l: seq<int>, yy: seq<int>, eob: int)
    requires Codable(l, yy) && eob == |yy| + 1
    ensures var s := Encode(l, yy, 0) + [eob];
      && (s[0] == eob <==> |l| == 0)
      && (s[0] == RUNA || s[0] == RUNB <==> |l| > 0 && l[0] == yy[0])
      && 0 <= s[0] <= eob
  {
    var z := Leading(l, yy[0]);
    EncodeRun(l, yy, z, l[z..]);
    if z > 0 {
      RunCodeHead(z);
    } else if |l| > 0 {
      var j := EncodeOtherFirst(l, yy);
    }
  }

  // ---- Runs ----

  lemma {:induction false} RunValueAppend(r: seq<int>, d: int)
    ensures RunValue(r + [d]) == RunValue(r) + (d + 1) * Pow2(|r|)
  {
    if |r| == 0 {
      assert r + [d] == [d];
      assert [d][1..] == [];
    } else {
      RunValueAppend(r[1..], d);
      assert (r + [d])[1..] == r[1..] + [d];
      MulSwap(d + 1, Pow2(|r| - 1));
    }
  }

  /** Once more digits are read than a block allows, the run is longer than a block. */
  lemma DigitBound(z: nat, d: nat)
    requires d < |RunCode(z)| && z <= 900000
    ensures Pow2(d) < 2097152
  {
    RunLengthBound(z);
    Pow2Monotone(d, |RunCode(z)|);
  }

  /** A definition guarded by "for every u with UnfoldRun(u)" stays folded for the verifier until
      UnfoldRun is mentioned. */
  ghost predicate UnfoldRun(u: int) { true }

  /** The symbols from p on are the run code of z and then something else. */
  ghost predicate RunAhead(syms: seq<int>, p: int, z: nat, code: seq<int>) {
    && 0 <= p && p + |code| < |syms| && syms[p + |code|] != RUNA && syms[p + |code|] != RUNB
    && forall u {:trigger UnfoldRun(u)} :: UnfoldRun(u) ==> 0 < z <= 900000 && code == RunCode(z) && syms[p..p + |code|] == code
  }

  /** The first d digits have been added up; kept folded. */
  ghost predicate Adding(code: seq<int>, d: int, n: int, es: int) {
    && 0 <= d <= |code|
    && forall u {:trigger UnfoldRun(u)} :: UnfoldRun(u) ==> n == Pow2(d) && es + 1 == RunValue(code[..d])
  }

  lemma AddingStart(code: seq<int>)
    ensures Adding(code, 0, 1, -1)
  {
    assert code[..0] == [] && Pow2(0) == 1;
  }

  lemma AddingStep(syms: seq<int>, p: int, z: nat, code: seq<int>, d: int, n: int, es: int)
    requires RunAhead(syms, p, z, code) && Adding(code, d, n, es) && d < |code|
    ensures n < 2097152 && (syms[p + d] == RUNA || syms[p + d] == RUNB)
    ensures Adding(code, d + 1, n * 2, es + (syms[p + d] + 1) * n)
  {
    assert UnfoldRun(0);
    DigitBound(z, d);
    RunDigits(z);
    assert syms[p + d] == syms[p..p + |code|][d] == code[d];
    RunValueAppend(code[..d], code[d]);
    assert code[..d + 1] == code[..d] + [code[d]];
  }

  lemma AddingEnd(syms: seq<int>, p: int, z: nat, code: seq<int>, n: int, es: int)
    requires RunAhead(syms, p, z, code) && Adding(code, |code|, n, es)
    ensures es + 1 == z
  {
    assert UnfoldRun(0);
    RunRoundTrip(z);
    assert code[..|code|] == code;
  }

  /** Adds up the digits of a run, up to the first symbol that is not one. */
  method ReadRun(sr: Reader, sym: nat, ghost syms: seq<int>, ghost tail: seq<bool>, ghost p: int, ghost z: nat, ghost code: seq<int>)
      returns (run: Fetch<(nat, nat)>)
    requires sr.Valid() && (sym == RUNA || sym == RUNB)
    modifies sr, sr.r
    ensures sr.Valid() && |sr.r.rest| <= |old(sr.r.rest)|
    ensures run.Got? ==> run.value.1 < sr.alphaSize && |sr.r.rest| < |old(sr.r.rest)| && run.value.1 != RUNA && run.value.1 != RUNB
    ensures (RunAhead(syms, p, z, code) && old(sr.Expects(syms, tail)) && old(sr.Position()) == p + 1 && syms[p] == sym)
            ==> run == Got((z, syms[p + |code|])) && sr.Expects(syms, tail) && sr.Position() == p + |code| + 1
  {
    ghost var ok := RunAhead(syms, p, z, code) && sr.Expects(syms, tail) && sr.Position() == p + 1 && syms[p] == sym;
    var es, N: nat, nextSym: nat := -1, 1, sym;
    ghost var d: nat := 0;
    AddingStart(code);
    while nextSym == RUNA || nextSym == RUNB
      invariant sr.Valid() && |sr.r.rest| <= |old(sr.r.rest)| && es >= -1 && N >= 1
      invariant d > 0 ==> |sr.r.rest| < |old(sr.r.rest)| && es >= 0 && nextSym < sr.alphaSize
      invariant d == 0 ==> nextSym == sym
      invariant ok ==> sr.Expects(syms, tail) && sr.Position() == p + d + 1 && Adding(code, d, N, es) && nextSym == syms[p + d]
      decreases |sr.r.rest|
    {
      if ok { AddingStep(syms, p, z, code, d, N, es); }
      if N >= 2097152 {
        return DataError;
      }
      if nextSym == RUNA {
        es := es + N;
      } else {
        es := es + 2 * N;
      }
      N := N * 2;
      nextSym :- sr.Next(syms, tail);
      d := d + 1;
    }
    if ok {
      if d < |code| { AddingStep(syms, p, z, code, d, N, es); }
      AddingEnd(syms, p, z, code, N, es);
    }
    run := Got((es + 1, nextSym));
  }

  // ---- The whole column ----

  /** The symbols from p on are those of the characters from k on, from list yy; kept folded. */
  ghost predicate ColumnAhead(syms: seq<int>, p: int, l: seq<int>, k: int, yy: seq<int>) {
    && 0 <= p < |syms| && 0 <= k <= |l| <= 900000 && |yy| > 0
    && forall u {:trigger UnfoldRun(u)} :: UnfoldRun(u) ==> Ahead(syms, p, l[k..], yy)
  }

  ghost predicate Ahead(syms: seq<int>, p: int, rest: seq<int>, yy: seq<int>)
    requires 0 <= p < |syms|
  {
    Codable(rest, yy) && syms[p..] == Encode(rest, yy, 0) + [|yy| + 1]
  }

  /** The symbols of a whole column. */
  ghost predicate IsColumn(syms: seq<int>, l: seq<int>, n: nat) {
    |l| <= 900000 && Codable(l, Iota(n)) && syms == Encode(l, Iota(n), 0) + [n + 1]
  }

  lemma ColumnBegins(syms: seq<int>, l: seq<int>, n: nat)
    requires IsColumn(syms, l, n)
    ensures ColumnAhead(syms, 0, l, 0, Iota(n))
  {
    assert syms[0..] == syms && l[0..] == l;
  }

  /** What the next symbol says. */
  lemma NextKind(syms: seq<int>, p: int, l: seq<int>, k: int, yy: seq<int>)
    requires ColumnAhead(syms, p, l, k, yy)
    ensures syms[p] == |yy| + 1 <==> k == |l|
    ensures syms[p] == |yy| + 1 ==> p + 1 == |syms|
    ensures syms[p] == RUNA || syms[p] == RUNB <==> k < |l| && l[k] == yy[0]
  {
    assert UnfoldRun(0);
    NextMeans(l[k..], yy, |yy| + 1);
    assert syms[p..][0] == syms[p];
    if k == |l| {
      assert Encode(l[k..], yy, 0) == [];
      assert |syms[p..]| == 1;
    }
  }

  lemma NextOther(syms: seq<int>, p: int, l: seq<int>, k: int, yy: seq<int>)
    requires ColumnAhead(syms, p, l, k, yy) && k < |l| && l[k] != yy[0]
    ensures 1 <= syms[p] - 1 < |yy| && yy[syms[p] - 1] == l[k]
    ensures ColumnAhead(syms, p + 1, l, k + 1, ToFront(yy, syms[p] - 1))
  {
    assert UnfoldRun(0);
    var j := EncodeOtherFirst(l[k..], yy);
    assert l[k..][1..] == l[k + 1..];
    AfterFirst(syms, p, j + 1, Encode(l[k + 1..], ToFront(yy, j), 0), |yy| + 1);
  }

  lemma AfterFirst(syms: seq<int>, p: int, x: int, rest: seq<int>, eob: int)
    requires 0 <= p < |syms| && syms[p..] == [x] + rest + [eob]
    ensures syms[p] == x && p + 1 < |syms| && syms[p + 1..] == rest + [eob]
  {
    assert syms[p..][0] == x;
    assert syms[p..][1..] == syms[p + 1..];
    assert ([x] + rest + [eob])[1..] == rest + [eob];
  }

  lemma AfterRun(syms: seq<int>, p: int, code: seq<int>, rest: seq<int>, eob: int)
    requires 0 <= p < |syms| && syms[p..] == code + rest + [eob]
    ensures p + |code| < |syms| && syms[p..p + |code|] == code && syms[p + |code|..] == rest + [eob]
  {
    var n := |code|;
    assert syms[p..][..n] == syms[p..p + n] && syms[p..][n..] == syms[p + n..];
    assert (code + rest + [eob])[..n] == code && (code + rest + [eob])[n..] == rest + [eob];
  }

  lemma NextRun(syms: seq<int>, p: int, l: seq<int>, k: int, yy: seq<int>) returns (z: nat, code: seq<int>)
    requires ColumnAhead(syms, p, l, k, yy) && k < |l| && l[k] == yy[0]
    ensures z > 0 && k + z <= |l| && (forall i :: k <= i < k + z ==> l[i] == yy[0])
    ensures RunAhead(syms, p, z, code) && ColumnAhead(syms, p + |code|, l, k + z, yy)
  {
    assert UnfoldRun(0);
    z := Leading(l[k..], yy[0]);
    code := RunCode(z);
    var t := l[k..][z..];
    assert t == l[k + z..];
    EncodeRun(l[k..], yy, z, t);
    AfterRun(syms, p, code, Encode(t, yy, 0), |yy| + 1);
    assert forall i :: k <= i < k + z ==> l[i] == l[k..][i - k];
    NextMeans(t, yy, |yy| + 1);
    assert syms[p + |code|..][0] == syms[p + |code|];
    assert ColumnAhead(syms, p + |code|, l, k + z, yy);
  }

  /** The characters before k are out. */
  ghost predicate Done(c: Column, l: seq<int>, k: int)
    reads c
  {
    && 0 <= k <= |l| && InRange(l, |c.seqToUnseq|) && k == |c.out|
    && forall i :: 0 <= i < k ==> c.out[i] == c.seqToUnseq[l[i]]
  }

  /** Reader and column stand where the symbols of l should have brought them, with the symbol
      nextSym just read. */
  ghost predicate OnTrack(sr: Reader, c: Column, nextSym: nat, syms: seq<int>, tail: seq<bool>, l: seq<int>)
    reads sr, sr.r, c
  {
    var p := sr.Position() - 1;
    && sr.Expects(syms, tail) && ColumnAhead(syms, p, l, c.nblock, c.yy) && syms[p] == nextSym
    && Done(c, l, c.nblock) && |l| <= c.nblockMAX
  }

  method RunStep(sr: Reader, c: Column, nextSym: nat, ghost syms: seq<int>, ghost tail: seq<bool>, ghost l: seq<int>)
      returns (next: Fetch<nat>)
    requires nextSym == RUNA || nextSym == RUNB
    requires sr.Valid() && c.Valid() && sr.alphaSize == |c.seqToUnseq| + 2
    requires {sr, sr.r} !! {c, c.tt, c.unzftab, c.rows, c.rows.mtfa, c.rows.mtfbase}
    modifies sr, sr.r, c, c.tt, c.unzftab
    ensures sr.Valid() && |sr.r.rest| <= |old(sr.r.rest)|
    ensures next.Got? ==> c.Valid() && next.value < sr.alphaSize && |sr.r.rest| < |old(sr.r.rest)|
    ensures old(OnTrack(sr, c, nextSym, syms, tail, l)) ==> next.Got? && OnTrack(sr, c, next.value, syms, tail, l)
  {
    ghost var ok := OnTrack(sr, c, nextSym, syms, tail, l);
    ghost var p, z, code := sr.Position() - 1, 0, [];
    if ok {
      NextKind(syms, p, l, c.nblock, c.yy);
      z, code := NextRun(syms, p, l, c.nblock, c.yy);
    }
    var run :- ReadRun(sr, nextSym, syms, tail, p, z, code);
    var room := c.PutRun(run.0);
    if !room {
      return DataError;
    }
    next := Got(run.1);
  }

  method PlaceStep(sr: Reader, c: Column, nextSym: nat, ghost syms: seq<int>, ghost tail: seq<bool>, ghost l: seq<int>)
      returns (next: Fetch<nat>)
    requires 1 < nextSym <= |c.seqToUnseq|
    requires sr.Valid() && c.Valid() && sr.alphaSize == |c.seqToUnseq| + 2
    requires {sr, sr.r} !! {c, c.tt, c.unzftab, c.rows, c.rows.mtfa, c.rows.mtfbase}
    modifies sr, sr.r, c, c.tt, c.unzftab, c.rows.mtfa, c.rows.mtfbase
    ensures sr.Valid() && |sr.r.rest| <= |old(sr.r.rest)|
    ensures next.Got? ==> c.Valid() && next.value < sr.alphaSize && |sr.r.rest| < |old(sr.r.rest)|
    ensures old(OnTrack(sr, c, nextSym, syms, tail, l)) ==> next.Got? && OnTrack(sr, c, next.value, syms, tail, l)
  {
    if OnTrack(sr, c, nextSym, syms, tail, l) {
      NextKind(syms, sr.Position() - 1, l, c.nblock, c.yy);
      NextOther(syms, sr.Position() - 1, l, c.nblock, c.yy);
    }
    var room := c.PutPlace(nextSym - 1);
    if !room {
      return DataError;
    }
    next := sr.Next(syms, tail);
  }

  /** Reads the symbols up to the end marker and fills the column. */
  method ReadColumn(sr: Reader, c: Column, ghost syms: seq<int>, ghost tail: seq<bool>, ghost l: seq<int>) returns (n: Fetch<nat>)
    requires c.out == [] && c.yy == Iota(|c.seqToUnseq|) && sr.Position() == 0
    requires sr.Valid() && c.Valid() && sr.alphaSize == |c.seqToUnseq| + 2
    requires {sr, sr.r} !! {c, c.tt, c.unzftab, c.rows, c.rows.mtfa, c.rows.mtfbase}
    modifies sr, sr.r, c, c.tt, c.unzftab, c.rows.mtfa, c.rows.mtfbase
    ensures sr.Valid() && |sr.r.rest| <= |old(sr.r.rest)|
    ensures n.Got? ==> c.Valid() && n.value == |c.out|
    ensures (old(sr.Expects(syms, tail)) && IsColumn(syms, l, |c.seqToUnseq|) && |l| <= c.nblockMAX)
            ==> n == Got(|l|) && sr.r.rest == tail && InRange(l, |c.seqToUnseq|) && c.out == Gather(c.seqToUnseq, l)
  {
    ghost var ok := sr.Expects(syms, tail) && IsColumn(syms, l, |c.seqToUnseq|) && |l| <= c.nblockMAX;
    if ok { ColumnBegins(syms, l, |c.seqToUnseq|); }
    var nextSym: nat :- sr.Next(syms, tail);
    while nextSym != |c.seqToUnseq| + 1
      invariant sr.Valid() && c.Valid() && nextSym < sr.alphaSize && |sr.r.rest| <= |old(sr.r.rest)|
      invariant ok ==> OnTrack(sr, c, nextSym, syms, tail, l)
      decreases |sr.r.rest|
    {
      if nextSym == RUNA || nextSym == RUNB {
        nextSym :- RunStep(sr, c, nextSym, syms, tail, l);
      } else {
        nextSym :- PlaceStep(sr, c, nextSym, syms, tail, l);
      }
    }
    if ok {
      NextKind(syms, sr.Position() - 1, l, c.nblock, c.yy);
      sr.End(syms, tail);
      assert c.out == Gather(c.seqToUnseq, l);
    }
    n := Got(c.nblock);
  }
}
