/** The pieces of a stream as BZ2_decompress in decompress.c reads them. */
module StreamReader {
  import opened Sequences
  import opened Bits
  import opened BitIO
  import opened RunLength
  import opened Crc
  import opened InverseBwt
  import opened BwtDecoder
  import opened ColumnBuffer
  import opened BlockOutput
  import opened BlockParts
  import opened BlockReader
  import opened StreamFormat

  lemma FirstByte(s: seq<Byte>, tail: seq<bool>)
    requires |s| > 0
    ensures ByteBits(s) + tail == ToBits(s[0], 8) + (ByteBits(s[1..]) + tail)
  {
    var c, t := s[0], s[1..];
    assert ByteBits(s) == ByteBits([c]) + ByteBits(t) by {
      ByteBitsConcat([c], t);
      assert s == [c] + t;
    }
    OneByteBits(c);
    Assoc(ToBits(c, 8), ByteBits(t), tail);
  }

  /** Reads one byte. */
  method GetByte(r: BitReader, ghost c: Byte, ghost tail: seq<bool>) returns (uc: Fetch<Byte>)
    requires r.Valid()
    modifies r
    ensures r.Valid() && |r.rest| <= |old(r.rest)| && (uc.Got? ==> |r.rest| < |old(r.rest)|)
    ensures uc.Got? ==> old(r.rest) == ToBits(uc.value, 8) + r.rest
    ensures old(r.rest) == ToBits(c, 8) + tail ==> uc == Got(c) && r.rest == tail
  {
    assert Pow2(8) == 256 by { Pow2Table(); }
    ghost var z := r.rest;
    var x :- r.GetNumber(8, c, tail);
    ToBitsValue(z[..8]);
    uc := Got(x);
  }

  lemma MoreBytes(s: seq<Byte>, i: nat)
    requires i < |s|
    ensures ByteBits(s[..i + 1]) == ByteBits(s[..i]) + ToBits(s[i], 8)
  {
    ByteBitsAppend(s[..i], s[i]);
    assert s[..i + 1] == s[..i] + [s[i]];
  }

  /** Reads the bytes of s, or fails at the first that differs. */
  method ExpectBytes(r: BitReader, s: seq<Byte>, ghost tail: seq<bool>) returns (f: Fetch<bool>)
    requires r.Valid()
    modifies r
    ensures r.Valid() && |r.rest| <= |old(r.rest)|
    ensures f.Got? ==> old(r.rest) == ByteBits(s) + r.rest
    ensures old(r.rest) == ByteBits(s) + tail ==> f == Got(true) && r.rest == tail
  {
    ghost var z, ok := r.rest, r.rest == ByteBits(s) + tail;
    assert s[0..] == s && s[..0] == [];
    for i := 0 to |s|
      invariant r.Valid() && |r.rest| <= |old(r.rest)|
      invariant z == ByteBits(s[..i]) + r.rest
      invariant ok ==> r.rest == ByteBits(s[i..]) + tail
    {
      MoreBytes(s, i);
      FirstByte(s[i..], tail);
      assert s[i..][1..] == s[i + 1..];
      var uc :- GetByte(r, s[i], ByteBits(s[i + 1..]) + tail);
      if uc != s[i] {
        return DataError;
      }
      Assoc(ByteBits(s[..i]), ToBits(s[i], 8), r.rest);
    }
    assert ByteBits(s[|s|..]) + tail == tail && s[..|s|] == s;
    f := Got(true);
  }

  /** The stream header: the block size. */
  method ReadHeader(r: BitReader, ghost bs: nat, ghost tail: seq<bool>) returns (size: Fetch<nat>)
    requires r.Valid()
    modifies r
    ensures r.Valid() && |r.rest| <= |old(r.rest)| && (size.Got? ==> |r.rest| < |old(r.rest)|)
    ensures size.Got? ==> 1 <= size.value <= 9 && old(r.rest) == ByteBits(Header(size.value)) + r.rest
    ensures 1 <= bs <= 9 && old(r.rest) == ByteBits(Header(bs)) + tail ==> size == Got(bs) && r.rest == tail
  {
    ghost var ok := 1 <= bs <= 9 && r.rest == ByteBits(Header(bs)) + tail;
    ghost var last: Byte := if ok then 0x30 + bs else 0;
    var mark := [0x42, 0x5a, 0x68];
    if ok { HeaderSplit(bs, tail); }
    var b :- ExpectBytes(r, mark, ToBits(last, 8) + tail);
    var digit :- GetByte(r, last, tail);
    if digit < 0x30 + 1 || digit > 0x30 + 9 {
      return DataError;
    }
    size := Got(digit - 0x30);
    HeaderSplit(digit - 0x30, r.rest);
  }

  lemma HeaderSplit(bs: nat, tail: seq<bool>)
    requires 1 <= bs <= 9
    ensures ByteBits(Header(bs)) + tail == ByteBits([0x42, 0x5a, 0x68]) + (ToBits(0x30 + bs, 8) + tail)
  {
    var mark: seq<Byte>, last: Byte := [0x42, 0x5a, 0x68], 0x30 + bs;
    assert Header(bs) == mark + [last];
    ByteBitsAppend(mark, last);
    Assoc(ByteBits(mark), ToBits(last, 8), tail);
  }

  /** A definition guarded by "for every u with UnfoldAhead(u)" stays folded for the verifier
      until UnfoldAhead is mentioned. */
  ghost predicate UnfoldAhead(u: int) { true }

  /** A block's or the trailer's mark, then body; kept folded. */
  ghost predicate MarkAhead(rest: seq<bool>, block: bool, body: seq<bool>) {
    forall u {:trigger UnfoldAhead(u)} :: UnfoldAhead(u) ==> rest == ByteBits(if block then BlockMagic else EndMagic) + body
  }

  /** Whether a block or the trailer comes next: its mark. */
  method ReadMark(r: BitReader, ghost block: bool, ghost tail: seq<bool>) returns (b: Fetch<bool>)
    requires r.Valid()
    modifies r
    ensures r.Valid() && |r.rest| <= |old(r.rest)| && (b.Got? ==> |r.rest| < |old(r.rest)|)
    ensures b.Got? ==> MarkAhead(old(r.rest), b.value, r.rest)
    ensures MarkAhead(old(r.rest), block, tail) ==> b == Got(block) && r.rest == tail
  {
    assert UnfoldAhead(0);
    ghost var s := if block then BlockMagic else EndMagic;
    FirstByte(s, tail);
    var uc :- GetByte(r, s[0], ByteBits(s[1..]) + tail);
    if uc == EndMagic[0] {
      var f :- ExpectBytes(r, EndMagic[1..], tail);
      FirstByte(EndMagic, r.rest);
      return Got(false);
    }
    if uc != BlockMagic[0] {
      return DataError;
    }
    var g :- ExpectBytes(r, BlockMagic[1..], tail);
    FirstByte(BlockMagic, r.rest);
    b := Got(true);
  }

  /** The bits begin with a checksum. */
  ghost predicate Stored(rest: seq<bool>, crc: nat) { 32 <= |rest| && crc == Value(rest[..32]) }

  /** A block's checksum and body. */
  method ReadBlock(r: BitReader, tt: array<int>, blockSize100k: nat, ghost p: Parts, ghost crc: nat, ghost tail: seq<bool>)
      returns (block: Fetch<(nat, Block)>, unzftab: array<int>)
    requires r.Valid() && 100000 * blockSize100k <= tt.Length && blockSize100k <= 9
    modifies r, tt
    ensures r.Valid() && |r.rest| <= |old(r.rest)| && fresh(unzftab)
    ensures block.Got? ==> block.value.1.origPtr < block.value.1.nblock <= 100000 * blockSize100k
    ensures block.Got? ==> Counted(unzftab[..], tt[..block.value.1.nblock]) && Stored(old(r.rest), block.value.0)
    ensures BlockAhead(old(r.rest), p, blockSize100k, crc, tail)
      ==> block == Got((crc, Block(|p.b|, p.origPtr))) && tt[..|p.b|] == ColumnOf(p) && r.rest == tail
  {
    unzftab := new int[256];
    ghost var ok := BlockAhead(r.rest, p, blockSize100k, crc, tail);
    var storedBlockCRC := GetBytes(r, 4, crc, if ok then BodyBits(p) + tail else []);
    if !storedBlockCRC.Got? {
      return storedBlockCRC.PropagateFailure(), unzftab;
    }
    var b;
    b, unzftab := ReadBody(r, tt, blockSize100k, p, tail);
    if !b.Got? {
      return b.PropagateFailure(), unzftab;
    }
    block := Got((storedBlockCRC.value, b.value));
  }

  /** The bits after the mark of a block. */
  ghost predicate BlockAhead(rest: seq<bool>, p: Parts, bs: nat, crc: nat, tail: seq<bool>) {
    Complete(p) && |p.b| <= 100000 * bs && crc < Pow2(8 * 4) && rest == ToBits(crc, 8 * 4) + (BodyBits(p) + tail)
  }

  lemma AfterMark(c: Coded, bs: nat, tail: seq<bool>) returns (rest: seq<bool>)
    requires GoodBlock(c, bs)
    ensures BlockBits(c, bs) + tail == ByteBits(BlockMagic) + rest && BlockAhead(rest, c.parts, bs, BlockCrc(c, bs), tail)
  {
    assert UnfoldBlock(0);
    BlockCrc32(c, bs);
    assert Pow2(8 * 4) == 0x100000000 by { Pow2Table(); }
    var m, a, b := ByteBits(BlockMagic), ToBits(BlockCrc(c, bs), 32), BodyBits(c.parts);
    assert BlockBits(c, bs) == m + (a + b);
    rest := a + (b + tail);
    Peel(m, a, b, tail);
  }

  lemma Peel(m: seq<bool>, a: seq<bool>, b: seq<bool>, tail: seq<bool>)
    ensures m + (a + b) + tail == m + (a + (b + tail))
  {
  }

  /** A block's checksum and body, then after; crc is its checksum, bytes its data. Kept folded. */
  ghost predicate Coming(rest: seq<bool>, c: Coded, bs: nat, crc: nat, bytes: seq<Byte>, after: seq<bool>) {
    forall u {:trigger UnfoldAhead(u)} :: UnfoldAhead(u) ==>
      GoodBlock(c, bs) && crc == BlockCrc(c, bs) && bytes == DataOf(c, bs) && BlockAhead(rest, c.parts, bs, crc, after)
  }

  // ---- Setting up the output of a block ----

  /** The end of BZ2_decompress, fast case. Its checks of the counts never fail. */
  method SetUpFast(tt: array<int>, unzftab: array<int>, nblock: nat, origPtr: nat, blockSize100k: nat) returns (o: FastOutput)
    requires tt != unzftab && nblock <= tt.Length && Counted(unzftab[..], tt[..nblock])
    requires origPtr < nblock <= 100000 * blockSize100k
    modifies tt
    ensures fresh(o) && o.Valid() && o.tt == tt && o.calculatedBlockCRC == CrcInit && o.l == old(tt[..nblock])
    ensures o.Remaining() == Expand(Symbols(o.l, Inverse(o.l), origPtr), Symbol(o.l, Inverse(o.l), origPtr, nblock))
  {
    ghost var l: seq<Byte> := tt[..nblock];
    var ok, cftab := CumulativeCounts(unzftab, nblock, l);
    if !ok {
      assert false;
    }
    BuildFast(tt, cftab, nblock, l);
    o := new FastOutput(tt, nblock, origPtr, blockSize100k, l, Inverse(l));
  }

  /** The end of BZ2_decompress, small case: the output will give the very bytes the fast case
      gives for the same column and row. */
  method SetUpSmall(slots: PackedSlots, unzftab: array<int>, nblock: nat, origPtr: nat, blockSize100k: nat) returns (o: SmallOutput)
    requires slots.Valid() && unzftab != slots.ll16 && unzftab != slots.ll4
    requires nblock <= slots.ll16.Length && Counted(unzftab[..], slots.ll16[..nblock])
    requires origPtr < nblock <= 100000 * blockSize100k <= 900000
    modifies slots.ll16, slots.ll4
    ensures fresh(o) && o.Valid() && o.slots == slots && o.calculatedBlockCRC == CrcInit && o.l == old(slots.ll16[..nblock])
    ensures o.Remaining() == Expand(Symbols(o.l, Inverse(o.l), origPtr), Symbol(o.l, Inverse(o.l), origPtr, nblock))
  {
    ghost var l: seq<Byte> := slots.ll16[..nblock];
    var ok, cftab := CumulativeCounts(unzftab, nblock, l);
    if !ok {
      assert false;
    }
    BuildSmall(slots, cftab, nblock, origPtr, l);
    o := new SmallOutput(slots, cftab, nblock, origPtr, blockSize100k, l, Inverse(l));
  }

  /** The bytes the output of a good block will give. */
  lemma BlockExpands(c: Coded, bs: nat, w: Byte)
    requires GoodBlock(c, bs) && Complete(c.parts)
    ensures var l := ColumnOf(c.parts);
      Expand(Symbols(l, Inverse(l), c.parts.origPtr), w) == Expansion(DataOf(c, bs), false)
  {
    assert UnfoldBlock(0);
    var p := c.parts;
    InverseTransform(p.b, p.ptr, Inverse(ColumnOf(p)), p.origPtr);
    RunsRoundTrip(c.runs, w);
  }

  // ---- The output of a block, with its workings folded ----

  ghost predicate UnfoldReady(o: FastOutput, u: int) { true }
  ghost predicate UnfoldLeaves(o: FastOutput, left: seq<Byte>, u: int) { true }

  /** The output is in order; kept folded. */
  ghost predicate Ready(o: FastOutput)
    reads o, o.tt
  {
    forall u {:trigger UnfoldReady(o, u)} :: UnfoldReady(o, u) ==> o.Valid()
  }

  /** These bytes are left to give, and nothing is wrong with the block; kept folded. */
  ghost predicate Leaves(o: FastOutput, left: seq<Byte>)
    reads o, o.tt
  {
    forall u {:trigger UnfoldLeaves(o, left, u)} :: UnfoldLeaves(o, left, u) ==> o.Valid() && o.Remaining() == Expansion(left, false)
  }

  /** Reads a block, after its mark, and sets up its output. */
  method StartOutput(r: BitReader, tt: array<int>, blockSize100k: nat, ghost c: Coded, ghost crc: nat, ghost bytes: seq<Byte>, ghost after: seq<bool>)
      returns (f: Fetch<(nat, FastOutput)>)
    requires r.Valid() && tt.Length == 100000 * blockSize100k && blockSize100k <= 9
    modifies r, tt
    ensures r.Valid() && |r.rest| <= |old(r.rest)|
    ensures f.Got? ==> fresh(f.value.1) && f.value.1.tt == tt && Ready(f.value.1)
    ensures f.Got? ==> Stored(old(r.rest), f.value.0) && f.value.1.calculatedBlockCRC == CrcInit
    ensures Coming(old(r.rest), c, blockSize100k, crc, bytes, after)
      ==> f.Got? && r.rest == after && f.value.0 == crc && Leaves(f.value.1, bytes)
  {
    assert UnfoldAhead(0);
    ghost var ok := Coming(r.rest, c, blockSize100k, crc, bytes, after);
    var block, unzftab := ReadBlock(r, tt, blockSize100k, c.parts, crc, after);
    if block.IsFailure() {
      return block.PropagateFailure();
    }
    var (stored, b) := block.value;
    var o := SetUpFast(tt, unzftab, b.nblock, b.origPtr, blockSize100k);
    if ok {
      BlockExpands(c, blockSize100k, Symbol(o.l, Inverse(o.l), b.origPtr, b.nblock));
    }
    f := Got((stored, o));
  }

  /** How a call on the output of a block ends. */
  datatype Given = Corrupt | More | Finished

  /** Gives out as much as there is room for, and tells whether the block is finished. */
  method Give(o: FastOutput, avail: nat, ghost left: seq<Byte>) returns (bytes: seq<Byte>, how: Given, ghost left': seq<Byte>)
    requires Ready(o)
    modifies o
    ensures Ready(o) && |bytes| <= avail
    ensures old(Leaves(o, left)) ==> how != Corrupt && left == bytes + left' && Leaves(o, left')
    ensures how != Corrupt ==> o.calculatedBlockCRC == CrcBytes(old(o.calculatedBlockCRC), bytes)
    ensures old(Leaves(o, left)) ==> if how == Finished then left' == [] else |bytes| == avail
  {
    assert UnfoldReady(o, 0) && UnfoldLeaves(o, left, 0);
    var corrupt;
    bytes, corrupt := o.Drain(avail);
    left' := o.Remaining().bytes;
    if corrupt {
      return [], Corrupt, left';
    }
    o.FinishedWhenDrained();
    how := if o.nblockUsed == o.nblock + 1 && o.stateOutLen == 0 then Finished else More;
  }
}
