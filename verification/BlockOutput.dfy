/** Draining a decoded block: the two un-run-length machines of bzlib.c, resumable after every
    byte. FAST follows the packed T^(-1) vector, SMALL the reversed 20-bit slots. Both are
    specified by the same expansion, so they emit the same bytes whatever the sizes of the
    output buffers they are given. */
module BlockOutput {
  import opened Sequences
  import opened InverseBwt
  import opened BwtDecoder
  import opened RunLength
  import opened Crc

  /** What is left to expand after u symbols have been fetched from row o. */
  ghost function Rest(l: seq<Byte>, t: seq<int>, o: int, u: nat): Expansion
    requires |t| == |l| && InRange(t, |t|) && 0 <= o < |l| && u >= 1
  {
    if u <= |l| then Expand(Symbols(l, t, o)[u - 1..], Symbol(l, t, o, |l|))
    else Expansion([], u > |l| + 1)
  }

  /** The run that starts at symbol u - 1: its length, and how many symbols have then been
      fetched. The symbol after the run is fetched too; after four equal symbols, a count and
      one more. */
  ghost function RunFrom(l: seq<Byte>, t: seq<int>, o: int, u: nat): (r: (nat, nat))
    requires |t| == |l| && InRange(t, |t|) && 0 <= o < |l| && 1 <= u <= |l|
    ensures u < r.1 <= |l| + 2
  {
    var ch := Symbol(l, t, o, u - 1);
    if u == |l| || Symbol(l, t, o, u) != ch then (1, u + 1)
    else if u + 1 == |l| || Symbol(l, t, o, u + 1) != ch then (2, u + 2)
    else if u + 2 == |l| || Symbol(l, t, o, u + 2) != ch then (3, u + 3)
    else (4 + Symbol(l, t, o, u + 3) as int, u + 5)
  }

  /** Taking that run off the front of what is left. */
  lemma RestIsRunThenRest(l: seq<Byte>, t: seq<int>, o: int, u: nat)
    requires |t| == |l| && InRange(t, |t|) && 0 <= o < |l| && 1 <= u <= |l|
    ensures var (n, u') := RunFrom(l, t, o, u);
            Rest(l, t, o, u) == Prepend(Rep(Symbol(l, t, o, u - 1), n), Rest(l, t, o, u'))
  {
    var c, w := Symbols(l, t, o)[u - 1..], Symbol(l, t, o, |l|);
    var k := FirstRun(c, w).1;
    ExpandFirstRun(c, w);
    assert RunFrom(l, t, o, u) == (FirstRun(c, w).0, u + k) by { RunFromSymbols(l, t, o, u); }
    if k <= |c| {
      assert c[k..] == Symbols(l, t, o)[u + k - 1..];
    }
  }

  lemma RunFromSymbols(l: seq<Byte>, t: seq<int>, o: int, u: nat)
    requires |t| == |l| && InRange(t, |t|) && 0 <= o < |l| && 1 <= u <= |l|
    ensures var (n, k) := FirstRun(Symbols(l, t, o)[u - 1..], Symbol(l, t, o, |l|));
            RunFrom(l, t, o, u) == (n, u + k)
  {
    var c := Symbols(l, t, o)[u - 1..];
    assert c[0] == Symbol(l, t, o, u - 1);
    assert |c| > 1 ==> c[1] == Symbol(l, t, o, u);
    assert |c| > 2 ==> c[2] == Symbol(l, t, o, u + 1);
    assert |c| > 3 ==> c[3] == Symbol(l, t, o, u + 2);
    assert |c| > 4 ==> c[4] == Symbol(l, t, o, u + 3);
  }

  /** The machine of unRLE_obuf_to_output_FAST. */
  class FastOutput {
    const tt: array<int>
    const nblock: nat
    const blockSize100k: nat
    var tPos: int
    var k0: Byte
    var nblockUsed: nat
    var stateOutCh: Byte
    var stateOutLen: nat
    var calculatedBlockCRC: nat
    ghost const l: seq<Byte>
    ghost const t: seq<int>
    ghost const origPtr: int

    /** tt holds the packed vector. */
    ghost predicate Loaded()
      reads tt
    {
      && |l| == |t| == nblock && InRange(t, nblock) && 0 <= origPtr < nblock <= tt.Length && nblock <= 100000 * blockSize100k
      && (forall k :: 0 <= k < nblock ==> tt[k] == l[k] + 256 * t[k])
    }

    /** The cursor stands after nblockUsed fetches. */
    ghost predicate Valid()
      reads this, tt
    {
      Loaded() && Cursor(tPos, k0, nblockUsed)
    }

    ghost predicate Cursor(pos: int, k: Byte, u: nat)
      requires |t| == |l| && InRange(t, |t|) && 0 <= origPtr < |l|
    {
      1 <= u <= |l| + 2 && pos == Walk(t, origPtr, u + 1) &&
      (u <= |l| ==> k == Symbol(l, t, origPtr, u - 1))
    }

    /** The bytes still to come, and whether the block will then prove corrupt. */
    ghost function Remaining(): Expansion
      requires Valid()
      reads this, tt
    {
      Prepend(Rep(stateOutCh, stateOutLen), Rest(l, t, origPtr, nblockUsed))
    }

    /** The end of BZ2_decompress: start at origPtr and fetch the first symbol. */
    constructor (tt: array<int>, nblock: nat, origPtr: int, blockSize100k: nat,
                 ghost l: seq<Byte>, ghost t: seq<int>)
      requires |l| == |t| == nblock && InRange(t, nblock) && 0 <= origPtr < nblock <= tt.Length && nblock <= 100000 * blockSize100k
      requires forall k :: 0 <= k < nblock ==> tt[k] == l[k] + 256 * t[k]
      ensures Valid() && this.l == l && this.t == t && this.origPtr == origPtr && this.tt == tt
      ensures Remaining() == Expand(Symbols(l, t, origPtr), Symbol(l, t, origPtr, nblock))
      ensures calculatedBlockCRC == CrcInit
    {
      this.tt, this.nblock, this.blockSize100k := tt, nblock, blockSize100k;
      this.l, this.t, this.origPtr := l, t, origPtr;
      var p := tt[origPtr] / 256;
      assert p == Walk(t, origPtr, 1) by { assert Walk(t, origPtr, 0) == origPtr; }
      tPos := tt[p] / 256;
      k0 := tt[p] % 256;
      nblockUsed := 1;
      stateOutCh, stateOutLen := 0, 0;
      calculatedBlockCRC := CrcInit;
      new;
      assert Symbols(l, t, origPtr)[0..] == Symbols(l, t, origPtr);
    }

    /** BZ_GET_FAST: the guard on the cursor never fires, since the walk stays in the block. */
    function Fetch(pos: int, ghost u: nat): (r: (Byte, int))
      requires Loaded() && pos == Walk(t, origPtr, u + 1)
      reads tt
      ensures pos < 100000 * blockSize100k
      ensures r.0 == Symbol(l, t, origPtr, u) && r.1 == Walk(t, origPtr, u + 2)
    {
      (tt[pos] % 256, tt[pos] / 256)
    }

    /** Starts the next run: one symbol, two, three, or four and a count. A single symbol is
        reported by the flag alone, as the jump past the length test does. */
    method NextRun(k0: Byte, pos0: int, u0: nat, len0: nat)
      returns (single: bool, ch: Byte, len: nat, k: Byte, pos: int, u: nat)
      requires Loaded() && Cursor(pos0, k0, u0) && u0 <= nblock
      ensures Cursor(pos, k, u) && ch == Symbol(l, t, origPtr, u0 - 1)
      ensures (if single then 1 else len, u) == RunFrom(l, t, origPtr, u0)
    {
      single, len, k, pos, u := false, len0, k0, pos0, u0;
      ch := k;
      var (k1, p1) := Fetch(pos, u);
      pos := p1;
      u := u + 1;
      if k1 != k {
        k := k1;
        single := true;
        return;
      }
      if u == nblock + 1 {
        single := true;
        return;
      }
      len := 2;
      var (k2, p2) := Fetch(pos, u);
      pos := p2;
      u := u + 1;
      if u == nblock + 1 {
        return;
      }
      if k2 != k {
        k := k2;
        return;
      }
      len := 3;
      var (k3, p3) := Fetch(pos, u);
      pos := p3;
      u := u + 1;
      if u == nblock + 1 {
        return;
      }
      if k3 != k {
        k := k3;
        return;
      }
      var (k4, p4) := Fetch(pos, u);
      pos := p4;
      u := u + 1;
      len := k4 as int + 4;
      var (k5, p5) := Fetch(pos, u);
      k, pos := k5, p5;
      u := u + 1;
    }

    /** The loop of one call, on the local copies of the state. */
    method Emit(avail: nat)
      returns (out: seq<Byte>, corrupt: bool, ch: Byte, len: nat, u: nat, k: Byte, pos: int, crc: nat)
      requires Valid()
      ensures Cursor(pos, k, u) && crc == CrcBytes(calculatedBlockCRC, out)
      ensures corrupt <==> Remaining().corrupt && |Remaining().bytes| <= avail
      ensures Emitted(out, avail, Remaining(), Prepend(Rep(ch, len), Rest(l, t, origPtr, u)))
    {
      ch, len, u, k, pos, crc := stateOutCh, stateOutLen, nblockUsed, k0, tPos, calculatedBlockCRC;
      var single := false;
      out := [];
      while true
        invariant Cursor(pos, k, u) && |out| <= avail && crc == CrcBytes(calculatedBlockCRC, out)
        invariant Remaining() == Prepend(out, Prepend(Rep(ch, if single then 1 else len), Rest(l, t, origPtr, u)))
        decreases nblock + 2 - u
      {
        if single || len > 0 {
          out, len, crc := EmitRun(ch, if single then 1 else len, avail, out, crc, calculatedBlockCRC,
                                   Rest(l, t, origPtr, u));
          if len > 0 { return out, false, ch, len, u, k, pos, crc; }
        }
        PrependNone(ch, Rest(l, t, origPtr, u));
        if u > nblock + 1 { return out, true, ch, 0, u, k, pos, crc; }
        if u == nblock + 1 { return out, false, ch, 0, u, k, pos, crc; }
        RestIsRunThenRest(l, t, origPtr, u);
        single, ch, len, k, pos, u := NextRun(k, pos, u, len);
      }
    }

    /** One call with room for avail bytes. It emits as much of what remains as fits, and
        reports corruption exactly when the block is corrupt and everything before that fits.
        On corruption the local copies are not saved. */
    method Drain(avail: nat) returns (out: seq<Byte>, corrupt: bool)
      requires Valid()
      modifies this
      ensures Valid()
      ensures corrupt <==> old(Remaining()).corrupt && |old(Remaining()).bytes| <= avail
      ensures corrupt ==> Remaining() == old(Remaining())
      ensures !corrupt ==> Emitted(out, avail, old(Remaining()), Remaining())
      ensures !corrupt ==> calculatedBlockCRC == CrcBytes(old(calculatedBlockCRC), out)
    {
      var ch, len, u, k, pos, crc;
      out, corrupt, ch, len, u, k, pos, crc := Emit(avail);
      if corrupt { return; }
      stateOutCh, stateOutLen, nblockUsed, k0, tPos, calculatedBlockCRC := ch, len, u, k, pos, crc;
    }

    /** BZ2_bzDecompress takes the block as finished exactly when nothing remains. */
    lemma FinishedWhenDrained()
      requires Valid()
      ensures nblockUsed == nblock + 1 && stateOutLen == 0 <==> Remaining() == Expansion([], false)
    {
      if nblockUsed <= nblock {
        ExpandNonempty(Symbols(l, t, origPtr)[nblockUsed - 1..], Symbol(l, t, origPtr, nblock));
      }
    }
  }

  /** The machine of unRLE_obuf_to_output_SMALL. */
  class SmallOutput {
    const slots: PackedSlots
    const cftab: array<int>
    const nblock: nat
    const blockSize100k: nat
    var tPos: int
    var k0: Byte
    var nblockUsed: nat
    var stateOutCh: Byte
    var stateOutLen: nat
    var calculatedBlockCRC: nat
    ghost const l: seq<Byte>
    ghost const t: seq<int>
    ghost const origPtr: int

    /** The slots are reversed along the cycle of origPtr. */
    ghost predicate Loaded()
      reads slots.ll16, slots.ll4, cftab
    {
      && |l| == |t| == nblock && InRange(t, nblock) && 0 <= origPtr < nblock <= 100000 * blockSize100k
      && slots.Valid() && slots.ll16.Length >= nblock && IsInverse(l, t) && IsCumulative(cftab[..], l)
      && (forall m: nat {:trigger slots.Get(Walk(t, origPtr, m))} :: slots.Get(Walk(t, origPtr, m)) == Walk(t, origPtr, m + 1))
    }

    ghost predicate Valid()
      reads this, slots.ll16, slots.ll4, cftab
    {
      Loaded() && Cursor(tPos, k0, nblockUsed)
    }

    ghost predicate Cursor(pos: int, k: Byte, u: nat)
      requires |t| == |l| && InRange(t, |t|) && 0 <= origPtr < |l|
    {
      1 <= u <= |l| + 2 && pos == Walk(t, origPtr, u) &&
      (u <= |l| ==> k == Symbol(l, t, origPtr, u - 1))
    }

    ghost function Remaining(): Expansion
      requires Valid()
      reads this, slots.ll16, slots.ll4, cftab
    {
      Prepend(Rep(stateOutCh, stateOutLen), Rest(l, t, origPtr, nblockUsed))
    }

    constructor (slots: PackedSlots, cftab: array<int>, nblock: nat, origPtr: int, blockSize100k: nat,
                 ghost l: seq<Byte>, ghost t: seq<int>)
      requires |l| == |t| == nblock && 0 <= origPtr < nblock <= 100000 * blockSize100k
      requires IsInverse(l, t) && IsCumulative(cftab[..], l)
      requires slots.Valid() && slots.ll16.Length >= nblock
      requires forall m: nat {:trigger slots.Get(Walk(t, origPtr, m))} :: slots.Get(Walk(t, origPtr, m)) == Walk(t, origPtr, m + 1)
      ensures Valid() && this.l == l && this.t == t && this.origPtr == origPtr
      ensures this.slots == slots && this.cftab == cftab
      ensures Remaining() == Expand(Symbols(l, t, origPtr), Symbol(l, t, origPtr, nblock))
      ensures calculatedBlockCRC == CrcInit
    {
      this.slots, this.cftab, this.nblock, this.blockSize100k := slots, cftab, nblock, blockSize100k;
      this.l, this.t, this.origPtr := l, t, origPtr;
      assert Walk(t, origPtr, 0) == origPtr;
      var k, p := FetchSlot(slots, cftab, origPtr, 0, l, t, origPtr);
      k0, tPos := k, p;
      nblockUsed := 1;
      stateOutCh, stateOutLen := 0, 0;
      calculatedBlockCRC := CrcInit;
      new;
      assert Symbols(l, t, origPtr)[0..] == Symbols(l, t, origPtr);
      PrependNone(0, Rest(l, t, origPtr, 1));
    }

    method Fetch(pos: int, ghost u: nat) returns (ch: Byte, next: int)
      requires Loaded() && pos == Walk(t, origPtr, u)
      ensures pos < 100000 * blockSize100k
      ensures ch == Symbol(l, t, origPtr, u) && next == Walk(t, origPtr, u + 1)
    {
      ch, next := FetchSlot(slots, cftab, pos, u, l, t, origPtr);
    }

    method NextRun(k0: Byte, pos0: int, u0: nat) returns (ch: Byte, len: nat, k: Byte, pos: int, u: nat)
      requires Loaded() && Cursor(pos0, k0, u0) && u0 <= nblock
      ensures Cursor(pos, k, u) && ch == Symbol(l, t, origPtr, u0 - 1)
      ensures (len, u) == RunFrom(l, t, origPtr, u0)
    {
      ch, len, k, pos, u := k0, 1, k0, pos0, u0;
      var k1;
      k1, pos := Fetch(pos, u);
      u := u + 1;
      if u == nblock + 1 { return; }
      if k1 != k { k := k1; return; }
      len := 2;
      k1, pos := Fetch(pos, u);
      u := u + 1;
      if u == nblock + 1 { return; }
      if k1 != k { k := k1; return; }
      len := 3;
      k1, pos := Fetch(pos, u);
      u := u + 1;
      if u == nblock + 1 { return; }
      if k1 != k { k := k1; return; }
      k1, pos := Fetch(pos, u);
      u := u + 1;
      len := k1 as int + 4;
      k, pos := Fetch(pos, u);
      u := u + 1;
    }

    /** The loop of one call, on the values it saves at the end. */
    method Emit(avail: nat)
      returns (out: seq<Byte>, corrupt: bool, ch: Byte, len: nat, u: nat, k: Byte, pos: int, crc: nat)
      requires Valid()
      ensures Cursor(pos, k, u) && crc == CrcBytes(calculatedBlockCRC, out)
      ensures corrupt <==> Remaining().corrupt && |Remaining().bytes| < avail
      ensures Emitted(out, avail, Remaining(), Prepend(Rep(ch, len), Rest(l, t, origPtr, u)))
    {
      ch, len, u, k, pos, crc := stateOutCh, stateOutLen, nblockUsed, k0, tPos, calculatedBlockCRC;
      out := [];
      while true
        invariant Cursor(pos, k, u) && |out| <= avail && crc == CrcBytes(calculatedBlockCRC, out)
        invariant Remaining() == Prepend(out, Prepend(Rep(ch, len), Rest(l, t, origPtr, u)))
        decreases nblock + 2 - u
      {
        out, len, crc := EmitRun(ch, len, avail, out, crc, calculatedBlockCRC, Rest(l, t, origPtr, u));
        if |out| == avail { return out, false, ch, len, u, k, pos, crc; }
        PrependNone(ch, Rest(l, t, origPtr, u));
        if u == nblock + 1 { return out, false, ch, len, u, k, pos, crc; }
        if u > nblock + 1 { return out, true, ch, len, u, k, pos, crc; }
        RestIsRunThenRest(l, t, origPtr, u);
        ch, len, k, pos, u := NextRun(k, pos, u);
      }
    }

    /** One call with room for avail bytes: the same bytes as FAST. The room is tested before
        corruption is, so a corrupt block is reported one byte of room later. */
    method Drain(avail: nat) returns (out: seq<Byte>, corrupt: bool)
      requires Valid()
      modifies this
      ensures Valid()
      ensures corrupt <==> old(Remaining()).corrupt && |old(Remaining()).bytes| < avail
      ensures Emitted(out, avail, old(Remaining()), Remaining())
      ensures calculatedBlockCRC == CrcBytes(old(calculatedBlockCRC), out)
    {
      out, corrupt, stateOutCh, stateOutLen, nblockUsed, k0, tPos, calculatedBlockCRC := Emit(avail);
    }

    lemma FinishedWhenDrained()
      requires Valid()
      ensures nblockUsed == nblock + 1 && stateOutLen == 0 <==> Remaining() == Expansion([], false)
    {
      if nblockUsed <= nblock {
        ExpandNonempty(Symbols(l, t, origPtr)[nblockUsed - 1..], Symbol(l, t, origPtr, nblock));
      }
    }
  }

  /** BZ_GET_SMALL: the character a row starts with is found by its bucket. */
  method FetchSlot(slots: PackedSlots, cftab: array<int>, pos: int, ghost u: nat,
                   ghost l: seq<Byte>, ghost t: seq<int>, ghost o: int) returns (ch: Byte, next: int)
    requires |l| == |t| && InRange(t, |t|) && 0 <= o < |l| && IsInverse(l, t) && IsCumulative(cftab[..], l)
    requires slots.Valid() && slots.ll16.Length >= |l| && pos == Walk(t, o, u)
    requires slots.Get(Walk(t, o, u)) == Walk(t, o, u + 1)
    ensures ch == Symbol(l, t, o, u) && next == Walk(t, o, u + 1)
  {
    BelowAll(l, 256);
    var c := IndexIntoF(pos, cftab);
    BucketIsUnique(l, t, pos, c);
    ch, next := c, slots.Get(pos);
  }

  /** out is what a buffer of avail bytes takes from what was to do; rest is still to come. */
  ghost predicate Emitted(out: seq<Byte>, avail: nat, todo: Expansion, rest: Expansion) {
    && todo == Prepend(out, rest)
    && |out| == if avail <= |todo.bytes| then avail else |todo.bytes|
  }

  lemma PrependNone(ch: Byte, e: Expansion)
    ensures Prepend(Rep(ch, 0), e) == e
  {
    assert Rep(ch, 0) + e.bytes == e.bytes;
  }

  /** Emitting one symbol of a pending run. */
  lemma EmitOne(out: seq<Byte>, ch: Byte, len: nat, e: Expansion)
    requires len > 0
    ensures Prepend(out, Prepend(Rep(ch, len), e)) == Prepend(out + [ch], Prepend(Rep(ch, len - 1), e))
  {
    assert Rep(ch, len) == [ch] + Rep(ch, len - 1);
  }

  /** Emits a pending run until it or the room is used up, keeping the checksum. */
  method EmitRun(ch: Byte, len0: nat, avail: nat, out0: seq<Byte>, crc0: nat, ghost start: nat, ghost rest: Expansion)
    returns (out: seq<Byte>, len: nat, crc: nat)
    requires |out0| <= avail && crc0 == CrcBytes(start, out0)
    ensures |out| <= avail && crc == CrcBytes(start, out) && (len == 0 || |out| == avail) && len <= len0
    ensures Prepend(out, Prepend(Rep(ch, len), rest)) == Prepend(out0, Prepend(Rep(ch, len0), rest))
  {
    out, len, crc := out0, len0, crc0;
    while len > 0 && |out| < avail
      invariant len <= len0 && |out| <= avail && crc == CrcBytes(start, out)
      invariant Prepend(out, Prepend(Rep(ch, len), rest)) == Prepend(out0, Prepend(Rep(ch, len0), rest))
    {
      EmitOne(out, ch, len, rest);
      CrcAppend(start, out, ch);
      out := out + [ch];
      crc := CrcUpdate(crc, ch);
      len := len - 1;
    }
  }
}
