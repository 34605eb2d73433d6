/** Reading the body of a block: the part of BZ2_decompress in decompress.c from the
    randomisation bit to the check of the start row. */
module BlockReader {
  import opened Sequences
  import opened Bits
  import opened BitIO
  import opened Rotations
  import opened InverseBwt
  import opened MoveToFront
  import opened MappingTable
  import opened SelectorList
  import opened CanonicalCode
  import opened CodingTables
  import opened SymbolGroups
  import opened SymbolReader
  import opened ColumnBuffer
  import opened ColumnReader
  import opened BlockParts

  // ---- Numbers of several bytes ----

  /** One more byte of a number. */
  lemma NextByte(z: seq<bool>, i: nat, acc: nat, c: nat, rest: seq<bool>)
    requires i + 8 <= |z| && acc == Value(z[..i]) && rest == z[i..] && c == Value(rest[..8])
    ensures acc * 256 + c == Value(z[..i + 8]) && rest[8..] == z[i + 8..]
  {
    var eight: nat := 8;
    assert Pow2(eight) == 256 by { Pow2Table(); }
    assert z[..i + 8] == z[..i] + rest[..8];
    ValueConcat(z[..i], rest[..8]);
  }

  /** Reads a number of k bytes, most significant first, if they are there. */
  method GetBytes(r: BitReader, k: nat, ghost v: nat, ghost tail: seq<bool>) returns (x: Fetch<nat>)
    requires r.Valid() && k <= 4
    modifies r
    ensures r.Valid() && |r.rest| <= |old(r.rest)|
    ensures if 8 * k <= |old(r.rest)| then x == Got(Value(old(r.rest)[..8 * k])) && r.rest == old(r.rest)[8 * k..] else !x.Got?
    ensures v < Pow2(8 * k) && old(r.rest) == ToBits(v, 8 * k) + tail ==> x == Got(v) && r.rest == tail
  {
    ghost var z := r.rest;
    var acc: nat := 0;
    for i := 0 to k
      invariant r.Valid() && 8 * i <= |z| && r.rest == z[8 * i..] && acc == Value(z[..8 * i])
    {
      ghost var rest := r.rest;
      var uc :- r.GetNumber(8, 0, []);
      ShiftOr(acc, uc);
      NextByte(z, 8 * i, acc, uc, rest);
      acc := BitOr(acc * 256, uc);
    }
    x := Got(acc);
    if v < Pow2(8 * k) && z == ToBits(v, 8 * k) + tail { TakeNumber(v, 8 * k, tail); }
  }

  lemma ShiftOr(acc: nat, c: nat)
    requires c < Pow2(8)
    ensures BitOr(acc * 256, c) == acc * 256 + c
  {
    var k: nat := 8;
    assert Pow2(k) == 256 by { Pow2Table(); }
    BitOrDisjoint(acc * 256, c, k);
  }

  // ---- The parts of the body ----

  /** The randomisation bit and the start row. Randomised blocks are not modelled: they are
      refused here. */
  method ReadStart(r: BitReader, blockSize100k: nat, ghost o: int, ghost tail: seq<bool>) returns (origPtr: Fetch<nat>)
    requires r.Valid()
    modifies r
    ensures r.Valid() && |r.rest| <= |old(r.rest)|
    ensures (0 <= o <= 100000 * blockSize100k <= 900000 && old(r.rest) == [false] + (ToBits(o, 24) + tail))
            ==> origPtr == Got(o) && r.rest == tail
  {
    ghost var ok := 0 <= o <= 100000 * blockSize100k <= 900000 && r.rest == [false] + (ToBits(o, 24) + tail);
    assert ok ==> r.rest[1..] == ToBits(o, 24) + tail;
    var blockRandomised :- r.GetBit();
    if blockRandomised == 1 {
      return DataError;
    }
    assert ok ==> o < Pow2(8 * 3) by { Pow2Table(); }
    var x :- GetBytes(r, 3, if ok then o else 0, tail);
    if x > 10 + 100000 * blockSize100k {
      return DataError;
    }
    origPtr := Got(x);
  }

  /** What the tables before the symbols say. */
  datatype Tabled = Tabled(seqToUnseq: seq<int>, selector: seq<int>, lens: seq<seq<int>>)

  ghost predicate GoodTables(t: Tabled) {
    && 0 < |t.seqToUnseq| <= 256 && InRange(t.seqToUnseq, 256) && 2 <= |t.lens| <= 6 && InRange(t.selector, |t.lens|)
    && Tables(t.lens, |t.seqToUnseq| + 2)
  }

  ghost function TabledAs(p: Parts): Tabled { Tabled(Used(InUse(p.b), 256), p.sel, p.lens) }

  /** The bytes in use. */
  method ReadAlphabet(r: BitReader, ghost want: seq<bool>, ghost tail: seq<bool>) returns (a: Fetch<seq<int>>)
    requires r.Valid() && |want| == 256
    modifies r
    ensures r.Valid() && |r.rest| <= |old(r.rest)|
    ensures a.Got? ==> 0 < |a.value| <= 256 && InRange(a.value, 256)
    ensures |Used(want, 256)| > 0 && old(r.rest) == MappingBits(want) + tail ==> a == Got(Used(want, 256)) && r.rest == tail
  {
    var inUse :- ReadMapping(r, want, tail);
    var seqToUnseq, nInUse := MakeMapsD(inUse);
    UsedInRange(inUse, 256);
    if nInUse == 0 {
      return DataError;
    }
    a := Got(seqToUnseq);
  }

  /** The selectors and the coding tables. */
  method ReadCoding(r: BitReader, alphaSize: nat, ghost lens: seq<seq<int>>, ghost sel: seq<int>, ghost tail: seq<bool>)
      returns (c: Fetch<(seq<int>, seq<seq<int>>)>)
    requires r.Valid() && alphaSize > 0
    modifies r
    ensures r.Valid() && |r.rest| <= |old(r.rest)|
    ensures c.Got? ==> 2 <= |c.value.1| <= 6 && InRange(c.value.0, |c.value.1|) && Tables(c.value.1, alphaSize)
    ensures (2 <= |lens| <= 6 && InRange(sel, |lens|) && 0 < |sel| < 32768 && Tables(lens, alphaSize)
             && old(r.rest) == SelectorBits(|lens|, sel) + (TablesBits(lens, alphaSize, 0) + tail))
            ==> if |sel| <= MaxSelectors then c == Got((sel, lens)) && r.rest == tail else c == Overrun
  {
    ghost var ok := 2 <= |lens| <= 6 && InRange(sel, |lens|) && 0 < |sel| < 32768 && Tables(lens, alphaSize)
      && r.rest == SelectorBits(|lens|, sel) + (TablesBits(lens, alphaSize, 0) + tail);
    ghost var groups: nat, s, after := 2, [], [];
    if ok { groups, s, after := |lens|, sel, TablesBits(lens, alphaSize, 0) + tail; }
    var both :- ReadSelectors(r, groups, s, after);
    var tables :- ReadTables(r, both.0, alphaSize, lens, tail);
    c := Got((both.1, tables));
  }

  method ReadTabled(r: BitReader, ghost p: Parts, ghost tail: seq<bool>) returns (t: Fetch<Tabled>)
    requires r.Valid()
    modifies r
    ensures r.Valid() && |r.rest| <= |old(r.rest)|
    ensures t.Got? ==> GoodTables(t.value)
    ensures Written(p) && old(r.rest) == Payload(p) + tail ==>
              if Complete(p) then t == Got(TabledAs(p)) && r.rest == CodesPart(p) + tail else t == Overrun
  {
    ghost var ok := Written(p) && r.rest == Payload(p) + tail;
    ghost var coding, codes: seq<bool> := [], [];
    if ok {
      CodedTables(p);
      ColumnCodable(p);
      codes := CodesPart(p) + tail;
      coding := SelectorBits(|p.lens|, p.sel) + (TablesPart(p) + codes);
      PayloadChain(MappingBits(InUse(p.b)), SelectorBits(|p.lens|, p.sel), TablesPart(p), CodesPart(p), tail);
    }
    var seqToUnseq :- ReadAlphabet(r, InUse(p.b), coding);
    var both :- ReadCoding(r, |seqToUnseq| + 2, p.lens, p.sel, codes);
    t := Got(Tabled(seqToUnseq, both.0, both.1));
  }

  lemma PayloadChain(a: seq<bool>, b: seq<bool>, c: seq<bool>, d: seq<bool>, tail: seq<bool>)
    ensures a + (b + (c + d)) + tail == a + (b + (c + (d + tail)))
  {
  }

  // ---- The column ----

  /** The bits are the codes of these symbols, then tail, and the symbols code the column l. */
  ghost predicate ColumnBits(bits: seq<bool>, t: Tabled, syms: seq<int>, l: seq<int>, tail: seq<bool>) {
    && Coded(syms, t.lens, t.selector, |t.seqToUnseq| + 2) && bits == SymbolBits(syms, t.lens, t.selector, |t.seqToUnseq| + 2, 0) + tail
    && IsColumn(syms, l, |t.seqToUnseq|)
  }

  /** Decodes the symbols into tt. */
  method DecodeColumn(r: BitReader, t: Tabled, tt: array<int>, nblockMAX: nat, ghost syms: seq<int>, ghost l: seq<int>, ghost tail: seq<bool>)
      returns (n: Fetch<nat>, unzftab: array<int>)
    requires r.Valid() && GoodTables(t) && nblockMAX <= tt.Length
    modifies r, tt
    ensures r.Valid() && |r.rest| <= |old(r.rest)| && fresh(unzftab)
    ensures n.Got? ==> n.value <= nblockMAX && Counted(unzftab[..], tt[..n.value])
    ensures ColumnBits(old(r.rest), t, syms, l, tail) && |l| <= nblockMAX
      ==> n == Got(|l|) && InRange(l, |t.seqToUnseq|) && tt[..|l|] == Gather(t.seqToUnseq, l) && r.rest == tail
  {
    var tables := CreateTables(t.lens, |t.seqToUnseq| + 2);
    var sr := new Reader(r, tables, t.selector, t.lens, |t.seqToUnseq| + 2);
    var c := new Column(tt, t.seqToUnseq, nblockMAX);
    unzftab := c.unzftab;
    if ColumnBits(r.rest, t, syms, l, tail) { sr.Begin(syms, tail); }
    n := ReadColumn(sr, c, syms, tail, l);
    if n.Got? { c.Filled(); }
  }

  lemma PartsColumn(p: Parts, tail: seq<bool>)
    requires Complete(p)
    ensures ColumnBits(CodesPart(p) + tail, TabledAs(p), MtfValues(p), Numbered(ColumnOf(p), InUse(p.b)), tail)
    ensures InRange(Used(InUse(p.b), 256), 256) && InRange(Numbered(ColumnOf(p), InUse(p.b)), |Used(InUse(p.b), 256)|)
    ensures Gather(Used(InUse(p.b), 256), Numbered(ColumnOf(p), InUse(p.b))) == ColumnOf(p)
  {
    CodedTables(p);
    ColumnCodable(p);
    ColumnOccurs(p.b, p.ptr);
    NumbersBack(ColumnOf(p), InUse(p.b));
  }

  /** Decodes the symbols of a block into tt. */
  method ReadSymbols(r: BitReader, t: Tabled, tt: array<int>, nblockMAX: nat, ghost p: Parts, ghost tail: seq<bool>)
      returns (n: Fetch<nat>, unzftab: array<int>)
    requires r.Valid() && GoodTables(t) && nblockMAX <= tt.Length
    modifies r, tt
    ensures r.Valid() && |r.rest| <= |old(r.rest)| && fresh(unzftab)
    ensures n.Got? ==> n.value <= nblockMAX && Counted(unzftab[..], tt[..n.value])
    ensures Complete(p) && |p.b| <= nblockMAX && t == TabledAs(p) && old(r.rest) == CodesPart(p) + tail
      ==> n == Got(|p.b|) && tt[..|p.b|] == ColumnOf(p) && r.rest == tail
  {
    ghost var syms, l := [], [];
    if Complete(p) {
      PartsColumn(p, tail);
      syms, l := MtfValues(p), Numbered(ColumnOf(p), InUse(p.b));
    }
    n, unzftab := DecodeColumn(r, t, tt, nblockMAX, syms, l, tail);
  }

  /** Where a block stands once read. */
  datatype Block = Block(nblock: nat, origPtr: nat)

  /** Reads what comes before the symbols. */
  method ReadFront(r: BitReader, blockSize100k: nat, ghost p: Parts, ghost tail: seq<bool>) returns (f: Fetch<(nat, Tabled)>)
    requires r.Valid()
    modifies r
    ensures r.Valid() && |r.rest| <= |old(r.rest)|
    ensures f.Got? ==> GoodTables(f.value.1)
    ensures Written(p) && |p.b| <= 100000 * blockSize100k <= 900000 && old(r.rest) == BodyBits(p) + tail ==>
              if Complete(p) then f == Got((p.origPtr, TabledAs(p))) && r.rest == CodesPart(p) + tail else f == Overrun
  {
    ghost var payload: seq<bool> := [];
    if Written(p) && r.rest == BodyBits(p) + tail {
      payload := Payload(p) + tail;
      BodyChain(ToBits(p.origPtr, 24), Payload(p), tail);
    }
    var origPtr :- ReadStart(r, blockSize100k, p.origPtr, payload);
    var t :- ReadTabled(r, p, tail);
    f := Got((origPtr, t));
  }

  /** Reads the body of a block. */
  method ReadBody(r: BitReader, tt: array<int>, blockSize100k: nat, ghost p: Parts, ghost tail: seq<bool>)
      returns (block: Fetch<Block>, unzftab: array<int>)
    requires r.Valid() && 100000 * blockSize100k <= tt.Length
    modifies r, tt
    ensures r.Valid() && |r.rest| <= |old(r.rest)| && fresh(unzftab)
    ensures block.Got? ==> block.value.origPtr < block.value.nblock <= 100000 * blockSize100k
    ensures block.Got? ==> Counted(unzftab[..], tt[..block.value.nblock])
    ensures Written(p) && |p.b| <= 100000 * blockSize100k <= 900000 && old(r.rest) == BodyBits(p) + tail ==>
              if Complete(p) then block == Got(Block(|p.b|, p.origPtr)) && tt[..|p.b|] == ColumnOf(p) && r.rest == tail else block == Overrun
  {
    unzftab := new int[256];
    var f := ReadFront(r, blockSize100k, p, tail);
    if !f.Got? {
      return f.PropagateFailure(), unzftab;
    }
    var n;
    n, unzftab := ReadSymbols(r, f.value.1, tt, 100000 * blockSize100k, p, tail);
    if !n.Got? {
      return n.PropagateFailure(), unzftab;
    }
    if f.value.0 >= n.value {
      return DataError, unzftab;
    }
    block := Got(Block(n.value, f.value.0));
  }

  lemma BodyChain(a: seq<bool>, b: seq<bool>, tail: seq<bool>)
    ensures [false] + (a + b) + tail == [false] + (a + (b + tail))
  {
  }

  /** A block that is given enough needless selectors to pass all checks drives the decoder past the end
      of its arrays. */
  method ReadOverlong(r: BitReader, tt: array<int>, blockSize100k: nat, ghost p: Parts, ghost n: nat, ghost tail: seq<bool>)
      returns (block: Fetch<Block>)
    requires r.Valid() && 100000 * blockSize100k <= tt.Length && Complete(p) && |p.b| <= 100000 * blockSize100k <= 900000
    requires MaxSelectors < |p.sel| + n < 32768 && Written(Padded(p, n)) && r.rest == BodyBits(Padded(p, n)) + tail
    modifies r, tt
    ensures block == Overrun
  {
    PaddedIsWritten(p, n);
    var unzftab;
    block, unzftab := ReadBody(r, tt, blockSize100k, Padded(p, n), tail);
  }
}
