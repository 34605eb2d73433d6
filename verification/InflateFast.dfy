/** inflate_fast (inffast.c): decoding without checks for input or room, given six bytes of input and
    room for 258 at the start of each turn. */
module InflateFast {
  import opened Sequences
  import opened Bits
  import opened CodeWords
  import opened InflateWindow
  import opened DeflateMatch
  import opened TableFill
  import opened InflateTable
  import opened DeflateCode
  import opened TableBuilder

  // ---- Tables that can be relied on ----

  /** An entry that inflate_table makes for a symbol, or the invalid marker. */
  ghost predicate Known(kind: Kind, e: Entry) {
    1 <= e.bits <= MaxBits && (e == Invalid() || exists s: nat :: KnownFor(kind, s, e))
  }

  ghost predicate KnownFor(kind: Kind, s: nat, e: Entry) { s < Alphabet(kind) && e == EntryFor(kind, s, e.bits) }

  /** Every string of 15 bits finds such an entry. */
  ghost predicate Serves(tab: seq<Entry>, root: nat, kind: Kind) {
    root <= MaxBits && forall b: seq<bool> :: |b| == MaxBits ==> ServesAt(tab, root, kind, b)
  }

  ghost predicate ServesAt(tab: seq<Entry>, root: nat, kind: Kind, b: seq<bool>) { exists e :: Gives(tab, root, b, e) && Known(kind, e) }

  /** The tables of inflate_table serve. */
  lemma BuiltServes(tab: seq<Entry>, root: nat, kind: Kind, lens: seq<int>, bits: nat)
    requires Lengths(lens) && root == RootBits(lens, bits) && Decodes(tab, root, kind, lens)
    ensures Serves(tab, root, kind)
  {
    RootBound(lens, bits);
    forall b: seq<bool> | |b| == MaxBits ensures ServesAt(tab, root, kind, b) {
      assert DecodesAt(tab, root, kind, lens, b);
      if s: nat :| Begins(lens, s, b) {
        var e := EntryFor(kind, s, lens[s]);
        assert KnownFor(kind, s, e);
        assert Gives(tab, root, b, e) && Known(kind, e);
      } else {
        assert Gives(tab, root, b, Invalid()) && Known(kind, Invalid());
      }
    }
  }

  lemma RootBound(lens: seq<int>, bits: nat)
    requires Lengths(lens)
    ensures RootBits(lens, bits) <= MaxBits
  {
    LongestIsMax(lens, 0);
    ShortestIsMin(lens, 1);
    if ShortestLen(lens) > 0 { LongestIsMax(lens, ShortestLen(lens)); }
  }

  /** A length base, with at most five extra bits, for lengths up to 258. */
  ghost predicate LengthEntry(op: nat, val: nat) { 16 <= op <= 21 && 3 <= val && val + Pow2(op - 16) <= 259 }

  lemma SmallPowers()
    ensures Pow2(0) == 1 && Pow2(1) == 2 && Pow2(2) == 4 && Pow2(3) == 8 && Pow2(4) == 16 && Pow2(5) == 32
  {
  }

  lemma LengthFacts(i: nat)
    requires i < 29
    ensures LengthEntry(LengthExtra(i), LengthBase(i))
  {
    SmallPowers();
    if i < 16 { assert LengthExtra(i) <= 18; } else { assert LengthExtra(i) <= 21; }
  }

  lemma LensFacts(e: Entry)
    requires Known(Lens, e)
    ensures (e.op == 0 && e.val < 256) || LengthEntry(e.op, e.val) || e.op == 96 || e.op == 64 || e.op == 68 || e.op == 78
  {
    if s: nat :| KnownFor(Lens, s, e) {
      LensSymbol(s, e.bits);
    }
  }

  lemma LensSymbol(s: nat, bits: nat)
    requires s < 288
    ensures var e := EntryFor(Lens, s, bits);
      (e.op == 0 && e.val < 256) || LengthEntry(e.op, e.val) || e.op == 96 || e.op == 64 || e.op == 68 || e.op == 78
  {
    if 257 <= s < 286 {
      LengthFacts(s - 257);
    } else if s >= 286 {
      assert LengthExtra(s - 257) == if s == 286 then 78 else 68;
    }
  }

  lemma DistsFacts(e: Entry)
    requires Known(Dists, e)
    ensures (16 <= e.op <= 29 && e.val >= 1) || e.op == 64
  {
    if s: nat :| KnownFor(Dists, s, e) {
      DistFacts(s);
    }
  }

  lemma DistFacts(i: nat)
    requires i < 32
    ensures (16 <= DistExtra(i) <= 29 && DistBase(i) >= 1) || DistExtra(i) == 64
  {
  }

  // ---- The bits ahead ----

  /** Bytes as bits. */
  ghost function Stream(s: seq<Byte>): seq<bool> {
    if |s| == 0 then [] else ByteLow(9, s[0]) + Stream(s[1..])
  }

  lemma {:induction false} StreamLength(s: seq<Byte>)
    ensures |Stream(s)| == 8 * |s|
  {
    if |s| > 0 { StreamLength(s[1..]); }
  }

  lemma DropBoth(a: seq<bool>, b: seq<bool>, n: nat)
    requires n <= |b|
    ensures (a + b)[|a| + n..] == b[n..]
  {
  }

  lemma {:induction false} StreamFrom(s: seq<Byte>, m: nat)
    requires m <= |s|
    ensures 8 * m <= |Stream(s)| && Stream(s)[8 * m..] == Stream(s[m..])
  {
    StreamLength(s);
    if m > 0 {
      StreamFrom(s[1..], m - 1);
      assert s[1..][m - 1..] == s[m..];
      DropBoth(ByteLow(9, s[0]), Stream(s[1..]), 8 * (m - 1));
    } else {
      assert s[0..] == s;
    }
  }

  lemma {:induction false} NumberConcat(a: seq<bool>, b: seq<bool>)
    ensures Number(a + b) == Number(a) + Number(b) * Pow2(|a|)
  {
    NumberSplit(a + b, |a|);
    assert (a + b)[..|a|] == a && (a + b)[|a|..] == b;
  }

  /** The tables of a block. */
  datatype Tabs = Tabs(lcode: seq<Entry>, lenbits: nat, dcode: seq<Entry>, distbits: nat)

  ghost predicate GoodTabs(t: Tabs) { Serves(t.lcode, t.lenbits, Lens) && Serves(t.dcode, t.distbits, Dists) }

  /** The bit buffer holds buf, and rest is all that is still to come. */
  ghost predicate Buffered(buf: seq<bool>, hold: nat, bits: nat, input: seq<Byte>, next: nat, rest: seq<bool>) {
    |buf| == bits && hold == Number(buf) && next <= |input| && rest == buf + Stream(input[next..])
  }

  function Joined(hold: nat, c: nat, p: nat): nat { hold + c * p }

  lemma PullBuffered(buf: seq<bool>, hold: nat, bits: nat, input: seq<Byte>, next: nat, rest: seq<bool>)
    requires Buffered(buf, hold, bits, input, next, rest) && next < |input|
    ensures Buffered(buf + ByteLow(9, input[next]), Joined(hold, input[next], Pow2(bits)), bits + 8, input, next + 1, rest)
  {
    var c := ByteLow(9, input[next]);
    ByteLowNumber(input[next]);
    NumberConcat(buf, c);
    assert input[next..][1..] == input[next + 1..];
    Assoc(buf, c, Stream(input[next + 1..]));
  }

  lemma DropBuffered(buf: seq<bool>, hold: nat, bits: nat, input: seq<Byte>, next: nat, rest: seq<bool>, n: nat)
    requires Buffered(buf, hold, bits, input, next, rest) && n <= bits
    ensures n <= |rest| && Buffered(buf[n..], hold / Pow2(n), bits - n, input, next, rest[n..])
  {
    NumberDiv(buf, n, hold, Pow2(n));
    DropFirst(buf, Stream(input[next..]), n);
  }

  lemma DropFirst(a: seq<bool>, b: seq<bool>, n: nat)
    requires n <= |a|
    ensures (a + b)[n..] == a[n..] + b
  {
  }

  lemma PeekBuffered(buf: seq<bool>, hold: nat, bits: nat, input: seq<Byte>, next: nat, rest: seq<bool>, n: nat)
    requires Buffered(buf, hold, bits, input, next, rest) && n <= bits
    ensures n <= |rest| && hold % Pow2(n) == Number(rest[..n])
  {
    NumberDiv(buf, n, hold, Pow2(n));
    assert rest[..n] == buf[..n];
  }

  /** A lookup whose index and link stay within the first 15 bits. */
  lemma ServesNow(tab: seq<Entry>, root: nat, kind: Kind, z: seq<bool>) returns (e: Entry)
    requires Serves(tab, root, kind) && |z| >= MaxBits
    ensures Gives(tab, root, z, e) && Known(kind, e) && Gives(tab, root, z[..MaxBits], e)
  {
    assert ServesAt(tab, root, kind, z[..MaxBits]);
    e :| Gives(tab, root, z[..MaxBits], e) && Known(kind, e);
    GivesLonger(tab, root, z, MaxBits, e);
  }

  lemma GivesOnce(tab: seq<Entry>, root: nat, z: seq<bool>, e: Entry, e': Entry)
    requires Gives(tab, root, z, e) && Gives(tab, root, z, e')
    ensures e == e'
  {
  }

  /** The test for a link in inflate_fast is right on the entries that occur. */
  predicate FastLink(op: nat) { op != 0 && op / 16 % 2 == 0 && op / 64 % 2 == 0 }

  /** The values op has in entries other than links. */
  predicate PlainOp(op: nat) { op == 0 || 16 <= op < 32 || op == 96 || op == 64 || op == 68 || op == 78 }

  lemma PlainIsNoLink(op: nat)
    requires PlainOp(op)
    ensures !FastLink(op)
  {
    if 16 <= op < 32 { assert op / 16 == 1; }
  }

  lemma LinkIsLink(op: nat)
    requires 0 < op < 16
    ensures FastLink(op)
  {
  }

  lemma NotLink(kind: Kind, e: Entry)
    requires Known(kind, e) && kind != Codes
    ensures PlainOp(e.op)
  {
    if kind == Lens {
      LensFacts(e);
      assert LengthEntry(e.op, e.val) ==> 16 <= e.op < 32;
    } else {
      DistsFacts(e);
    }
  }

  class FastRun {
    const f: Inflater
    const t: Tabs
    const input: seq<Byte>
    var next: nat
    var hold: nat
    var bits: nat
    ghost var buf: seq<bool>
    ghost var rest: seq<bool>

    /** The bits held and those to come; the count only keeps the verifier from looking inside. */
    ghost predicate Sealed(k: nat)
      reads this
      decreases k, bits
    {
      if k == 0 then Buffered(buf, hold, bits, input, next, rest) else Sealed(k - 1)
    }

    ghost predicate Bits()
      reads this
    {
      Sealed(9)
    }

    lemma {:induction false} BitsSeal(k: nat)
      ensures Sealed(k) == Buffered(buf, hold, bits, input, next, rest)
      decreases k
    {
      if k > 0 { BitsSeal(k - 1); }
    }

    /** Takes over from inflate: its window and output, the tables, the input, and the bits held. */
    constructor (f: Inflater, t: Tabs, input: seq<Byte>, hold: nat, bits: nat)
      requires hold < Pow2(bits)
      ensures Bits() && this.f == f && this.t == t && this.input == input && next == 0 && this.bits == bits
      ensures rest == BitsOf(hold, bits) + Stream(input)
    {
      this.f, this.t, this.input, next, this.hold, this.bits := f, t, input, 0, hold, bits;
      buf, rest := BitsOf(hold, bits), BitsOf(hold, bits) + Stream(input);
      new;
      NumberOfBits(hold, bits);
      assert input[0..] == input;
      BitsSeal(9);
    }

    /** Shifts in one byte above the bits held. */
    method Pull()
      requires Bits() && next < |input|
      modifies this`hold, this`bits, this`next, this`buf
      ensures Bits() && bits == old(bits) + 8 && next == old(next) + 1 && next <= |input|
    {
      BitsSeal(9);
      PullBuffered(buf, hold, bits, input, next, rest);
      hold, buf := Joined(hold, input[next], Pow2(bits)), buf + ByteLow(9, input[next]);
      bits, next := bits + 8, next + 1;
      BitsSeal(9);
    }

    /** Drops n of the bits held. */
    method Drop(n: nat)
      requires Bits() && n <= bits
      modifies this`hold, this`bits, this`buf, this`rest
      ensures Bits() && bits == old(bits) - n && n <= |old(rest)| && rest == old(rest)[n..]
    {
      BitsSeal(9);
      DropBuffered(buf, hold, bits, input, next, rest, n);
      hold, bits, buf, rest := hold / Pow2(n), bits - n, buf[n..], rest[n..];
      BitsSeal(9);
    }

    /** The low n bits held. */
    method Peek(n: nat) returns (v: nat)
      requires Bits() && n <= bits
      ensures n <= bits <= |rest| && v == Number(rest[..n])
    {
      BitsSeal(9);
      PeekBuffered(buf, hold, bits, input, next, rest, n);
      v := hold % Pow2(n);
    }

    /** The bits held, and those of the bytes before lim. */
    ghost function Ahead(lim: nat): int
      reads this
    {
      bits + 8 * (lim - next)
    }

    /** Makes sure of 15 bits. */
    method Refill(ghost lim: nat)
      requires Bits() && next <= lim <= |input| && bits <= 30 && Ahead(lim) >= 23
      modifies this`hold, this`bits, this`next, this`buf
      ensures Bits() && MaxBits <= bits <= 30 && Ahead(lim) == old(Ahead(lim)) && next <= lim
    {
      if bits < 15 {
        Pull();
        Pull();
      }
    }

    /** One lookup, in one step or two, on 15 bits or more. */
    method LookUp(tab: seq<Entry>, root: nat, ghost kind: Kind) returns (op: nat, val: nat, ghost e: Entry)
      requires Bits() && bits >= MaxBits && Serves(tab, root, kind) && kind != Codes
      modifies this`hold, this`bits, this`buf, this`rest
      ensures Found(9, tab, root, kind, old(rest), e) && op == e.op && val == e.val
      ensures Bits() && bits == old(bits) - e.bits && e.bits <= |old(rest)| && rest == old(rest)[e.bits..]
    {
      ghost var z := rest;
      var i := Peek(root);
      ghost var y;
      e, y := Steps(tab, root, kind, z);
      var here := tab[i];
      Drop(here.bits);
      if FastLink(here.op) {
        var j := Peek(here.op);
        TwoDrops(z, here.bits, here.op, y.bits);
        here := tab[here.val + j];
        Drop(here.bits);
      }
      op, val := here.op, here.val;
    }

    /** The extra bits of a length. */
    method LengthBits(x: nat, ghost lim: nat) returns (v: nat)
      requires Bits() && x <= 5 && next <= lim <= |input| && bits <= 30 && Ahead(lim) >= x
      modifies this`hold, this`bits, this`next, this`buf, this`rest
      ensures Bits() && x <= |old(rest)| && v == Number(old(rest)[..x]) && rest == old(rest)[x..]
      ensures bits <= 30 && Ahead(lim) == old(Ahead(lim)) - x && next <= lim
    {
      v := 0;
      if x != 0 {
        if bits < x {
          Pull();
        }
        v := Peek(x);
        Drop(x);
      } else {
        assert rest[0..] == rest && rest[..0] == [];
      }
    }

    /** The extra bits of a distance. */
    method DistanceBits(x: nat, ghost lim: nat) returns (v: nat)
      requires Bits() && x <= 13 && next <= lim <= |input| && bits <= 30 && Ahead(lim) >= x
      modifies this`hold, this`bits, this`next, this`buf, this`rest
      ensures Bits() && x <= |old(rest)| && v == Number(old(rest)[..x]) && rest == old(rest)[x..]
      ensures bits <= 30 && Ahead(lim) == old(Ahead(lim)) - x && next <= lim
    {
      if bits < x {
        Pull();
        if bits < x {
          Pull();
        }
      }
      v := Peek(x);
      Drop(x);
    }

    /** The distance symbol. */
    method DistanceSymbol(ghost lim: nat) returns (op: nat, val: nat, ghost d: Entry)
      requires Bits() && GoodTabs(t) && next <= lim <= |input| && bits <= 30 && Ahead(lim) >= 28
      modifies this`hold, this`bits, this`next, this`buf, this`rest
      ensures Bits() && d.bits <= |old(rest)| && rest == old(rest)[d.bits..] && op == d.op && val == d.val
      ensures bits <= 30 && Ahead(lim) == old(Ahead(lim)) - d.bits && next <= lim
      ensures Found(9, t.dcode, t.distbits, Dists, old(rest), d) && DistanceEntry(d)
    {
      Refill(lim);
      op, val, d := LookUp(t.dcode, t.distbits, Dists);
      DistanceFacts(t.dcode, t.distbits, old(rest), d);
    }

    /** The distance: ok unless its symbol is invalid; n bits in all. */
    method ReadDistance(ghost lim: nat) returns (ok: bool, dist: nat, ghost d: Entry, ghost n: nat)
      requires Bits() && GoodTabs(t) && next <= lim <= |input| && bits <= 30 && Ahead(lim) >= 28
      modifies this`hold, this`bits, this`next, this`buf, this`rest
      ensures Bits() && n <= |old(rest)| && rest == old(rest)[n..]
      ensures bits <= 30 && Ahead(lim) == old(Ahead(lim)) - n && next <= lim
      ensures Found(9, t.dcode, t.distbits, Dists, old(rest), d) && (ok <==> d.op < 32)
      ensures ok ==> DistanceAt(old(rest), d, dist, n) && dist >= 1
    {
      ghost var z := rest;
      var op, val;
      op, val, d := DistanceSymbol(lim);
      n := d.bits;
      ok, dist := false, 0;
      if op / 16 % 2 == 1 {
        var w := DistanceBits(op % 16, lim);
        dist := val + w;
        TwoDrops(z, n, op % 16, op % 16);
        n := n + op % 16;
        ok := true;
      }
    }

    /** The rest of a match, after its length symbol with entry e: ok unless the distance symbol is
        invalid. */
    method ReadMatch(op: nat, val: nat, ghost z: seq<bool>, ghost e: Entry, ghost lim: nat)
        returns (ok: bool, len: nat, dist: nat, ghost d: Entry, ghost n: nat)
      requires Bits() && GoodTabs(t) && next <= lim <= |input| && bits <= 30 && Ahead(lim) >= 33
      requires LengthEntry(op, val) && op == e.op && val == e.val && e.bits <= |z| && rest == z[e.bits..]
      modifies this`hold, this`bits, this`next, this`buf, this`rest
      ensures Bits() && e.bits <= n <= |z| && rest == z[n..]
      ensures bits <= 30 && Ahead(lim) == old(Ahead(lim)) - (n - e.bits) && next <= lim
      ensures Distance(t, z, e, d) && (ok <==> d.op < 32)
      ensures ok ==> MatchAt(t, z, e, d, dist, len, n) && 3 <= len <= MaxMatch && dist >= 1
    {
      ghost var p, m := e.bits + (op - 16), 0;
      len := ReadLength(op, val, z, e, lim);
      ok, dist, d, m := ReadDistance(lim);
      n := p + m;
      TwoDrops(z, p, m, m);
      if ok { DistanceAtIs(z, p, d, dist, m); }
    }

    method ReadLength(op: nat, val: nat, ghost z: seq<bool>, ghost e: Entry, ghost lim: nat) returns (len: nat)
      requires Bits() && next <= lim <= |input| && bits <= 30 && Ahead(lim) >= 5
      requires LengthEntry(op, val) && op == e.op && val == e.val && e.bits <= |z| && rest == z[e.bits..]
      modifies this`hold, this`bits, this`next, this`buf, this`rest
      ensures Bits() && bits <= 30 && Ahead(lim) == old(Ahead(lim)) - (op - 16) && next <= lim && 3 <= len <= MaxMatch
      ensures var p := e.bits + (op - 16); p <= |z| && rest == z[p..] && len == e.val + Number(z[e.bits..p])
    {
      var x := op % 16;
      var v := LengthBits(x, lim);
      len := val + v;
      TwoDrops(z, e.bits, x, x);
      LengthBound(op, val, z[e.bits..e.bits + x]);
    }

    /** A match, after its length symbol. */
    method MatchTurn(op: nat, val: nat, ghost z: seq<bool>, ghost e: Entry, ghost lim: nat) returns (mode: Mode, ghost tok: Token, ghost n: nat)
      requires Bits() && GoodTabs(t) && next <= lim <= |input| && bits <= 30 && Ahead(lim) >= 33 && f.Valid() && f.left >= MaxMatch
      requires LengthEntry(op, val) && op == e.op && val == e.val && e.bits <= |z| && rest == z[e.bits..] && Found(9, t.lcode, t.lenbits, Lens, z, e)
      modifies this`hold, this`bits, this`next, this`buf, this`rest, f`put, f`left
      ensures Bits() && e.bits <= n <= |z| && rest == z[n..] && f.Valid()
      ensures bits <= 30 && Ahead(lim) == old(Ahead(lim)) - (n - e.bits) && next <= lim
      ensures |f.put| + f.left == old(|f.put| + f.left) && old(f.left) - MaxMatch <= f.left <= old(f.left)
      ensures mode == Going ==> tok.Match? && Reads(t, z, tok, n) && Reaches(old(f.History()), tok.dist) && f.History() == Applied(old(f.History()), tok)
      ensures mode != Going ==> mode == Wrong && f.History() == old(f.History()) && WrongAt(t, z, |old(f.put)| + f.whave)
    {
      var ok, len, dist;
      ghost var d;
      ok, len, dist, d, n := ReadMatch(op, val, z, e, lim);
      tok := Match(dist, len);
      mode := Wrong;
      if ok {
        assert MatchFull(t, z, e, d, dist, len, n);
        assert Reads(t, z, tok, n);
        var copied := f.FastMatch(dist, len);
        if copied {
          mode := Going;
        } else {
          assert MatchTooFar(t, z, dist, len, n, |old(f.put)| + f.whave);
        }
      } else {
        assert WrongDistance(t, z, e, d);
      }
    }

    /** Gives back the bytes not used. */
    method GiveBack(ghost z: seq<bool>, ghost buf0: seq<bool>, ghost n0: nat, ghost n: nat)
      requires Bits() && |buf0| < 8 && n0 <= |input| && z == buf0 + Stream(input[n0..]) && n <= |z| && rest == z[n..]
      requires bits - 8 * next == |buf0| - 8 * n0 - n
      modifies this`hold, this`bits, this`next, this`buf
      ensures Bits() && bits < 8 && n0 <= next && bits - 8 * next == old(bits - 8 * next) && next == old(next) - old(bits) / 8
    {
      BitsSeal(9);
      BackBuffered(z, buf0, n0, n, buf, hold, bits, input, next, rest);
      var len := bits / 8;
      next, bits := next - len, bits - 8 * len;
      hold, buf := hold % Pow2(bits), buf[..bits];
      BitsSeal(9);
    }

    /** One turn of the loop: a literal, a match, the end of the block, or something wrong. It pulls at
        most six bytes and puts out at most 258. */
    method Turn() returns (mode: Mode, ghost tok: Token, ghost n: nat)
      requires Bits() && GoodTabs(t) && next + 6 <= |input| && bits <= 30 && f.Valid() && f.left >= MaxMatch
      modifies this`hold, this`bits, this`next, this`buf, this`rest, f`put, f`left
      ensures Bits() && n <= |old(rest)| && rest == old(rest)[n..] && f.Valid()
      ensures bits <= 30 && bits - 8 * next == old(bits - 8 * next) - n && next <= old(next) + 6
      ensures |f.put| + f.left == old(|f.put| + f.left) && old(f.left) - MaxMatch <= f.left <= old(f.left)
      ensures mode == Going ==> n >= 1 && Reads(t, old(rest), tok, n) && f.History() == Applied(old(f.History()), tok)
      ensures mode == Going && tok.Match? ==> Reaches(old(f.History()), tok.dist)
      ensures mode != Going ==> f.History() == old(f.History())
      ensures mode == Ended ==> EndAt(t, old(rest), n)
      ensures mode == Wrong ==> WrongAt(t, old(rest), |old(f.put)| + f.whave)
    {
      ghost var z, lim, e := rest, next + 6, Invalid();
      Refill(lim);
      var op, val;
      op, val, e := LookUp(t.lcode, t.lenbits, Lens);
      LengthSymbol(t, z, e);
      n, tok := e.bits, Literal(0);
      if op == 0 {
        tok := Literal(val);
        assert LiteralAt(t, z, val, e, n);
        f.Literal(val);
        mode := Going;
      } else if op / 16 % 2 == 1 {
        mode, tok, n := MatchTurn(op, val, z, e, lim);
      } else if op / 32 % 2 == 1 {
        assert EndWith(t, z, e, n);
        mode := Ended;
      } else {
        assert WrongLength(t, z, e);
        mode := Wrong;
      }
    }

    /** What the loop keeps: the tokens read and what they made of the history h, k of the bits z used for
        them and n in all. */
    ghost predicate Progress(z: seq<bool>, h: seq<Byte>, mode: Mode, toks: seq<Token>, k: nat, n: nat)
      reads this, f
    {
      && k <= n <= |z| && rest == z[n..] && ReadsAll(t, z, toks, k) && f.History() == AppliedAll(h, toks)
      && match mode
         case Going => n == k
         case Ended => EndAt(t, z[k..], n - k)
         case Wrong => WrongAt(t, z[k..], |f.put| + f.whave)
    }

    lemma StartProgress()
      requires Bits()
      ensures Progress(rest, f.History(), Going, [], 0, 0) && |buf| == bits && next <= |input| && rest == buf + Stream(input[next..])
    {
      BitsSeal(9);
      assert rest[0..] == rest;
    }

    /** One more turn. */
    method Step(ghost z: seq<bool>, ghost h: seq<Byte>, ghost toks: seq<Token>, ghost n: nat) returns (mode: Mode, ghost toks': seq<Token>, ghost k': nat, ghost n': nat)
      requires Bits() && GoodTabs(t) && next + 6 <= |input| && bits <= 30 && f.Valid() && f.left >= MaxMatch && Progress(z, h, Going, toks, n, n)
      modifies this`hold, this`bits, this`next, this`buf, this`rest, f`put, f`left
      ensures Bits() && bits <= 30 && f.Valid() && Progress(z, h, mode, toks', k', n') && (mode == Going ==> n' > n)
      ensures bits - 8 * next == old(bits - 8 * next) - (n' - n) && next <= old(next) + 6
      ensures |f.put| + f.left == old(|f.put| + f.left)
    {
      ghost var tok, l;
      mode, tok, l := Turn();
      TwoDrops(z, n, 0, l);
      toks', k', n' := toks, n, n + l;
      if mode == Going {
        ReadsMore(t, z, toks, tok, n, n + l);
        AppliedMore(h, toks, tok);
        toks', k' := toks + [tok], n + l;
      }
    }

    /** inflate_fast: from fewer than 8 bits held, six bytes of input and room for 258. It reads tokens
        and carries them out until the input or the room is short, the block ends or something is wrong;
        it ends with fewer than 8 bits held and gives back only bytes it has pulled. */
    method Run() returns (mode: Mode, ghost toks: seq<Token>, ghost k: nat, ghost n: nat)
      requires Bits() && GoodTabs(t) && bits < 8 && next + 6 <= |input| && f.Valid() && f.left >= MaxMatch
      modifies this`hold, this`bits, this`next, this`buf, this`rest, f`put, f`left
      ensures Bits() && bits < 8 && old(next) <= next && f.Valid() && |f.put| + f.left == old(|f.put| + f.left)
      ensures Progress(old(rest), old(f.History()), mode, toks, k, n) && bits - 8 * next == old(bits - 8 * next) - n
      ensures mode == Going ==> |input| - next <= 8 || f.left < MaxMatch
    {
      ghost var z, h, buf0, n0 := rest, f.History(), buf, next;
      mode, toks, k, n := Going, [], 0, 0;
      StartProgress();
      while mode == Going && next + 6 <= |input| && f.left >= MaxMatch
        invariant Bits() && bits <= 30 && f.Valid() && Progress(z, h, mode, toks, k, n)
        invariant bits - 8 * next == old(bits - 8 * next) - n && |f.put| + f.left == old(|f.put| + f.left)
        decreases mode == Going, |z| - n
      {
        mode, toks, k, n := Step(z, h, toks, n);
      }
      GiveBack(z, buf0, n0, n);
    }
  }

  lemma Kept(z: seq<bool>, buf: seq<bool>, n: nat, keep: nat, s: seq<bool>, s': seq<bool>)
    requires n + keep <= |z| && keep <= |buf| && z[n..] == buf + s && z[n + keep..] == s'
    ensures z[n..] == buf[..keep] + s'
  {
    assert z[n..] == z[n..][..keep] + z[n..][keep..];
    assert z[n..][keep..] == z[n + keep..];
  }

  lemma BackBuffered(z: seq<bool>, buf0: seq<bool>, n0: nat, n: nat, buf: seq<bool>, hold: nat, bits: nat, input: seq<Byte>, next: nat, rest: seq<bool>)
    requires Buffered(buf, hold, bits, input, next, rest) && |buf0| < 8 && n0 <= |input| && z == buf0 + Stream(input[n0..]) && n <= |z| && rest == z[n..]
    requires bits - 8 * next == |buf0| - 8 * n0 - n
    ensures var len := bits / 8; var keep := bits - 8 * len;
      n0 <= next - len && Buffered(buf[..keep], hold % Pow2(keep), keep, input, next - len, rest)
  {
    var len := bits / 8;
    var keep := bits - 8 * len;
    assert hold % Pow2(keep) == Number(buf[..keep]) by { NumberDiv(buf, keep, hold, Pow2(keep)); }
    BackRest(z, buf0, n0, n, buf, bits, input, next);
  }

  lemma BackRest(z: seq<bool>, buf0: seq<bool>, n0: nat, n: nat, buf: seq<bool>, bits: nat, input: seq<Byte>, next: nat)
    requires |buf| == bits && next <= |input| && n <= |z| && z[n..] == buf + Stream(input[next..])
    requires |buf0| < 8 && n0 <= |input| && z == buf0 + Stream(input[n0..]) && bits - 8 * next == |buf0| - 8 * n0 - n
    ensures var len := bits / 8; var keep := bits - 8 * len;
      n0 <= next - len && z[n..] == buf[..keep] + Stream(input[next - len..])
  {
    var len := bits / 8;
    GiveBackBits(z, buf0, input, n0, n, next, bits);
    Kept(z, buf, n, bits - 8 * len, Stream(input[next..]), Stream(input[next - len..]));
  }

  /** The bits z begin with the n bits of these tokens. */
  ghost predicate ReadsAll(t: Tabs, z: seq<bool>, toks: seq<Token>, n: nat)
    decreases |toks|
  {
    if |toks| == 0 then n == 0
    else
      var before, last := toks[..|toks| - 1], toks[|toks| - 1];
      exists k: nat :: ReadsAll(t, z, before, k) && ReadsThen(t, z, last, k, n)
  }

  ghost predicate ReadsThen(t: Tabs, z: seq<bool>, tok: Token, k: nat, n: nat) { k <= n <= |z| && Reads(t, z[k..], tok, n - k) }

  lemma ReadsMore(t: Tabs, z: seq<bool>, toks: seq<Token>, tok: Token, k: nat, n: nat)
    requires ReadsAll(t, z, toks, k) && ReadsThen(t, z, tok, k, n)
    ensures ReadsAll(t, z, toks + [tok], n)
  {
    assert (toks + [tok])[..|toks|] == toks;
  }

  /** The history after some tokens. */
  ghost function AppliedAll(h: seq<Byte>, toks: seq<Token>): seq<Byte>
    decreases |toks|
  {
    if |toks| == 0 then h else Applied(AppliedAll(h, toks[..|toks| - 1]), toks[|toks| - 1])
  }

  lemma AppliedMore(h: seq<Byte>, toks: seq<Token>, tok: Token)
    ensures AppliedAll(h, toks + [tok]) == Applied(AppliedAll(h, toks), tok)
  {
    assert (toks + [tok])[..|toks|] == toks;
  }

  /** From a start with b0 bits held, fewer than 8, after n bits: whole bytes still held are bytes that
      were pulled since, and can be given back. */
  lemma GiveBackBits(z: seq<bool>, buf0: seq<bool>, input: seq<Byte>, n0: nat, n: nat, next: nat, bits: nat)
    requires |buf0| < 8 && n0 <= |input| && next <= |input| && z == buf0 + Stream(input[n0..]) && n <= |z| && bits - 8 * next == |buf0| - 8 * n0 - n
    ensures var m, keep := next - bits / 8, bits - 8 * (bits / 8);
      n0 <= m && n + keep <= |z| && z[n + keep..] == Stream(input[m..])
  {
    var m, keep := next - bits / 8, bits - 8 * (bits / 8);
    StreamLength(input[n0..]);
    assert n + keep == |buf0| + 8 * (m - n0);
    StreamFrom(input[n0..], m - n0);
    assert input[n0..][m - n0..] == input[m..];
    DropBoth(buf0, Stream(input[n0..]), 8 * (m - n0));
  }

  /** Whether the loop goes on. */
  datatype Mode = Going | Ended | Wrong

  ghost predicate LiteralAt(t: Tabs, z: seq<bool>, c: nat, e: Entry, n: nat) {
    Found(9, t.lcode, t.lenbits, Lens, z, e) && e.op == 0 && e.val == c && e.bits == n
  }

  ghost predicate MatchFull(t: Tabs, z: seq<bool>, e: Entry, d: Entry, dist: nat, len: nat, n: nat) {
    Found(9, t.lcode, t.lenbits, Lens, z, e) && LengthEntry(e.op, e.val) && d.op < 32 && MatchAt(t, z, e, d, dist, len, n)
  }

  ghost predicate EndWith(t: Tabs, z: seq<bool>, e: Entry, n: nat) {
    Found(9, t.lcode, t.lenbits, Lens, z, e) && e.op == 96 && e.bits == n
  }

  ghost predicate WrongLength(t: Tabs, z: seq<bool>, e: Entry) {
    Found(9, t.lcode, t.lenbits, Lens, z, e) && (e.op == 64 || e.op == 68 || e.op == 78)
  }

  ghost predicate WrongDistance(t: Tabs, z: seq<bool>, e: Entry, d: Entry) {
    Found(9, t.lcode, t.lenbits, Lens, z, e) && LengthEntry(e.op, e.val) && Distance(t, z, e, d) && d.op >= 32
  }

  /** The bits z begin with the n bits of a token. */
  ghost predicate Reads(t: Tabs, z: seq<bool>, tok: Token, n: nat) {
    match tok
    case Literal(c) => exists e :: LiteralAt(t, z, c, e, n)
    case Match(dist, len) => exists e, d :: MatchFull(t, z, e, d, dist, len, n)
  }

  ghost predicate EndAt(t: Tabs, z: seq<bool>, n: nat) { exists e :: EndWith(t, z, e, n) }

  /** The bits begin with an invalid symbol, or with a match from farther back than reach. */
  ghost predicate WrongAt(t: Tabs, z: seq<bool>, reach: int) {
    || (exists e :: WrongLength(t, z, e))
    || (exists e, d :: WrongDistance(t, z, e, d))
    || (exists dist: nat, len: nat, n: nat :: MatchTooFar(t, z, dist, len, n, reach))
  }

  ghost predicate MatchTooFar(t: Tabs, z: seq<bool>, dist: nat, len: nat, n: nat, reach: int) {
    dist > reach && Reads(t, z, Match(dist, len), n)
  }

  /** The history after one token. */
  ghost function Applied(h: seq<Byte>, tok: Token): seq<Byte> {
    match tok
    case Literal(c) => h + [c]
    case Match(dist, len) => if Reaches(h, dist) then Copied(h, dist, len) else h
  }

  /** What the length symbol can be. */
  lemma LengthSymbol(t: Tabs, z: seq<bool>, e: Entry)
    requires Found(9, t.lcode, t.lenbits, Lens, z, e)
    ensures 1 <= e.bits <= MaxBits && (e.op == 0 ==> e.val < 256)
    ensures e.op != 0 && e.op / 16 % 2 == 1 ==> LengthEntry(e.op, e.val)
    ensures e.op != 0 && e.op / 16 % 2 != 1 && e.op / 32 % 2 == 1 ==> e.op == 96
    ensures e.op != 0 && e.op / 16 % 2 != 1 && e.op / 32 % 2 != 1 ==> e.op == 64 || e.op == 68 || e.op == 78
  {
    FoundSeal(9, t.lcode, t.lenbits, Lens, z, e);
    LensFacts(e);
    if LengthEntry(e.op, e.val) { BaseOp(e.op); } else if e.op != 0 { OtherOp(e.op); }
  }

  lemma OtherOp(op: nat)
    requires op == 96 || op == 64 || op == 68 || op == 78
    ensures op / 16 % 2 == 0 && (op / 32 % 2 == 1 <==> op == 96)
  {
  }

  lemma BaseOp(op: nat)
    requires 16 <= op <= 21
    ensures op / 16 == 1 && op / 16 % 2 == 1
  {
  }

  ghost predicate DistanceEntry(d: Entry) {
    d.bits <= MaxBits && ((16 <= d.op <= 29 && d.val >= 1 && d.op / 16 % 2 == 1 && d.op % 16 == d.op - 16) || (d.op == 64 && d.op / 16 % 2 == 0))
  }

  /** The distance with entry d, and its extra bits. */
  ghost predicate DistanceAt(z: seq<bool>, d: Entry, dist: nat, n: nat) {
    16 <= d.op && d.bits + (d.op - 16) == n <= |z| && dist == d.val + Number(z[d.bits..n])
  }

  lemma DistanceAtIs(z: seq<bool>, p: nat, d: Entry, dist: nat, n: nat)
    requires p <= |z| && DistanceAt(z[p..], d, dist, n)
    ensures p + n <= |z| && dist == d.val + Number(z[p + d.bits..p + n])
  {
    assert z[p..][d.bits..n] == z[p + d.bits..p + n];
  }

  /** Where the distance symbol of a match stands, and its entry. */
  ghost predicate Distance(t: Tabs, z: seq<bool>, e: Entry, d: Entry) {
    && e.op >= 16 && e.bits + (e.op - 16) <= |z|
    && Found(9, t.dcode, t.distbits, Dists, z[e.bits + (e.op - 16)..], d)
  }

  /** The bits begin with the match: length symbol e and distance symbol d with their extra bits, n bits
      in all. */
  ghost predicate MatchAt(t: Tabs, z: seq<bool>, e: Entry, d: Entry, dist: nat, len: nat, n: nat) {
    && Distance(t, z, e, d) && len == e.val + Number(z[e.bits..e.bits + (e.op - 16)])
    && 16 <= d.op && e.bits + (e.op - 16) + d.bits + (d.op - 16) == n <= |z|
    && dist == d.val + Number(z[e.bits + (e.op - 16) + d.bits..n])
  }

  lemma DistanceFacts(tab: seq<Entry>, root: nat, z: seq<bool>, d: Entry)
    requires Found(9, tab, root, Dists, z, d)
    ensures DistanceEntry(d)
  {
    FoundSeal(9, tab, root, Dists, z, d);
    DistsFacts(d);
  }

  lemma LengthBound(op: nat, val: nat, b: seq<bool>)
    requires LengthEntry(op, val) && |b| == op - 16
    ensures 3 <= val + Number(b) <= MaxMatch
  {
    BitsOfNumber(b);
  }

  lemma TwoDrops(z: seq<bool>, a: nat, n: nat, b: nat)
    requires a + n <= |z| && a + b <= |z|
    ensures z[a..][..n] == z[a..a + n] && z[a..][b..] == z[a + b..]
  {
  }

  /** The lookup gives the known entry e; the count only keeps the verifier from looking inside. */
  ghost predicate Found(k: nat, tab: seq<Entry>, root: nat, kind: Kind, z: seq<bool>, e: Entry)
    decreases k, |tab|
  {
    if k == 0 then Gives(tab, root, z, e) && Known(kind, e) else Found(k - 1, tab, root, kind, z, e)
  }

  lemma {:induction false} FoundSeal(k: nat, tab: seq<Entry>, root: nat, kind: Kind, z: seq<bool>, e: Entry)
    ensures Found(k, tab, root, kind, z, e) == (Gives(tab, root, z, e) && Known(kind, e))
  {
    if k > 0 { FoundSeal(k - 1, tab, root, kind, z, e); }
  }

  /** The symbol found is the one whose code comes next, by the code of RFC 1951; without one it is the
      invalid marker. */
  lemma FoundIsCode(tab: seq<Entry>, root: nat, kind: Kind, lens: seq<int>, z: seq<bool>, e: Entry)
    requires Decodes(tab, root, kind, lens) && |z| >= MaxBits && Found(9, tab, root, kind, z, e)
    ensures if exists s: nat :: Begins(lens, s, z)
            then exists s: nat :: Begins(lens, s, z) && s < Alphabet(kind) && e == EntryFor(kind, s, lens[s])
            else e == Invalid()
  {
    FoundSeal(9, tab, root, kind, z, e);
    assert DecodesAt(tab, root, kind, lens, z);
    if s: nat :| Begins(lens, s, z) {
      GivesOnce(tab, root, z, e, EntryFor(kind, s, lens[s]));
    } else {
      GivesOnce(tab, root, z, e, Invalid());
    }
  }

  /** The two steps of a lookup: y is the entry it ends at. */
  ghost predicate Path(tab: seq<Entry>, root: nat, z: seq<bool>, e: Entry, y: Entry) {
    && root <= |z| && MaxBits <= |z| && Number(z[..root]) < |tab| && e.op == y.op && e.val == y.val
    && var x := tab[Number(z[..root])];
      if FastLink(x.op) then
        && x.bits + x.op <= MaxBits && e.bits == x.bits + y.bits
        && x.val + Number(z[x.bits..x.bits + x.op]) < |tab| && tab[x.val + Number(z[x.bits..x.bits + x.op])] == y
      else x == y == e
  }

  lemma PathOf(tab: seq<Entry>, root: nat, z: seq<bool>, e: Entry) returns (y: Entry)
    requires |z| >= MaxBits && Gives(tab, root, z[..MaxBits], e) && !FastLink(e.op)
    ensures Path(tab, root, z, e, y)
  {
    var b := z[..MaxBits];
    assert b[..root] == z[..root];
    var x := tab[Number(z[..root])];
    if IsLink(x) {
      LinkIsLink(x.op);
      assert b[x.bits..x.bits + x.op] == z[x.bits..x.bits + x.op];
      y := tab[x.val + Number(z[x.bits..x.bits + x.op])];
    } else {
      y := x;
    }
  }

  lemma Steps(tab: seq<Entry>, root: nat, kind: Kind, z: seq<bool>) returns (e: Entry, y: Entry)
    requires |z| >= MaxBits && kind != Codes && Serves(tab, root, kind)
    ensures Found(9, tab, root, kind, z, e) && Path(tab, root, z, e, y) && e.bits <= MaxBits
  {
    e := ServesNow(tab, root, kind, z);
    FoundSeal(9, tab, root, kind, z, e);
    NotLink(kind, e);
    PlainIsNoLink(e.op);
    y := PathOf(tab, root, z, e);
  }
}
