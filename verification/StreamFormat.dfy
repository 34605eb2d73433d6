/** A bzip2 stream: header, blocks, trailer (BZ2_compressBlock in compress.c). */
module StreamFormat {
  import opened Sequences
  import opened Bits
  import opened BitIO
  import opened RunLength
  import opened Crc
  import opened BlockParts

  /** A block as it was compressed, and the runs of input it holds. */
  datatype Coded = Coded(parts: Parts, runs: seq<Run>)

  /** A definition guarded by "for every u with UnfoldBlock(u)" stays folded for the verifier
      until UnfoldBlock is mentioned. */
  ghost predicate UnfoldBlock(u: int) { true }

  /** The block holds these runs, is properly coded, and leaves the room the compressor leaves. */
  ghost predicate GoodBlock(c: Coded, blockSize100k: nat) {
    forall u {:trigger UnfoldBlock(u)} :: UnfoldBlock(u) ==>
      WellFormed(c.runs) && c.parts.b == Pairs(c.runs) && Complete(c.parts) && |c.parts.b| <= 100000 * blockSize100k - 10
  }

  ghost predicate GoodBlocks(cs: seq<Coded>, blockSize100k: nat) {
    forall i :: 0 <= i < |cs| ==> GoodBlock(cs[i], blockSize100k)
  }

  /** The input a block stands for. */
  ghost function DataOf(c: Coded, bs: nat): seq<Byte>
    requires GoodBlock(c, bs)
  {
    assert UnfoldBlock(0);
    RunBytes(c.runs)
  }

  ghost function AllData(cs: seq<Coded>, bs: nat): seq<Byte>
    requires GoodBlocks(cs, bs)
  {
    if |cs| == 0 then [] else AllData(cs[..|cs| - 1], bs) + DataOf(cs[|cs| - 1], bs)
  }

  /** The checksum of a block's input. */
  ghost function BlockCrc(c: Coded, bs: nat): nat
    requires GoodBlock(c, bs)
  {
    FinalCrc(CrcBytes(CrcInit, DataOf(c, bs)))
  }

  /** combinedCRC after one more block. */
  function Mixed(combined: nat, crc: nat): nat {
    BitXor(BitOr(combined * 2 % 0x100000000, combined / 0x80000000), crc)
  }

  ghost function Combined(cs: seq<Coded>, bs: nat): nat
    requires GoodBlocks(cs, bs)
  {
    if |cs| == 0 then 0 else Mixed(Combined(cs[..|cs| - 1], bs), BlockCrc(cs[|cs| - 1], bs))
  }

  /** The first four bytes: BZh and the block size as a digit. */
  function Header(blockSize100k: nat): seq<Byte>
    requires 1 <= blockSize100k <= 9
  {
    [0x42, 0x5a, 0x68, 0x30 + blockSize100k]
  }

  const BlockMagic: seq<Byte> := [0x31, 0x41, 0x59, 0x26, 0x53, 0x59]
  const EndMagic: seq<Byte> := [0x17, 0x72, 0x45, 0x38, 0x50, 0x90]

  ghost function BlockBits(c: Coded, bs: nat): seq<bool>
    requires GoodBlock(c, bs)
  {
    assert UnfoldBlock(0);
    ByteBits(BlockMagic) + (ToBits(BlockCrc(c, bs), 32) + BodyBits(c.parts))
  }

  function Flat(ss: seq<seq<bool>>): seq<bool> {
    if |ss| == 0 then [] else ss[0] + Flat(ss[1..])
  }

  lemma {:induction false} FlatAppend(ss: seq<seq<bool>>, t: seq<bool>)
    ensures Flat(ss + [t]) == Flat(ss) + t
  {
    if |ss| == 0 {
      assert ss + [t] == [t] && [t][1..] == [];
      assert t + [] == t == [] + t;
    } else {
      FlatAppend(ss[1..], t);
      assert (ss + [t])[1..] == ss[1..] + [t];
      Assoc(ss[0], Flat(ss[1..]), t);
    }
  }

  ghost function EachBlock(cs: seq<Coded>, bs: nat): (ss: seq<seq<bool>>)
    requires GoodBlocks(cs, bs)
    ensures |ss| == |cs| && forall i :: 0 <= i < |cs| ==> ss[i] == BlockBits(cs[i], bs)
  {
    seq(|cs|, i requires 0 <= i < |cs| => BlockBits(cs[i], bs))
  }

  ghost function BlocksBits(cs: seq<Coded>, bs: nat): seq<bool>
    requires GoodBlocks(cs, bs)
  {
    Flat(EachBlock(cs, bs))
  }

  ghost function TrailerBits(combined: nat): seq<bool> {
    ByteBits(EndMagic) + ToBits(combined, 32)
  }

  /** The bytes are a stream for the data: the header first, the blocks, whose input concatenates
      to the data, and last the trailer, filled up to a byte. */
  ghost predicate IsStream(bytes: seq<Byte>, data: seq<Byte>) {
    exists bs: nat, cs: seq<Coded>, pad: nat :: StreamOf(bytes, data, bs, cs, pad)
  }

  ghost predicate StreamOf(bytes: seq<Byte>, data: seq<Byte>, bs: nat, cs: seq<Coded>, pad: nat) {
    && 1 <= bs <= 9 && GoodBlocks(cs, bs) && AllData(cs, bs) == data && pad < 8
    && ByteBits(bytes) == ByteBits(Header(bs)) + BlocksBits(cs, bs) + TrailerBits(Combined(cs, bs)) + Zeros(pad)
  }

  lemma BlocksAppend(cs: seq<Coded>, c: Coded, bs: nat)
    requires GoodBlocks(cs, bs) && GoodBlock(c, bs)
    ensures GoodBlocks(cs + [c], bs) && BlocksBits(cs + [c], bs) == BlocksBits(cs, bs) + BlockBits(c, bs)
  {
    var x, ss, tt := BlockBits(c, bs), EachBlock(cs, bs), EachBlock(cs + [c], bs);
    forall i | 0 <= i < |tt| ensures tt[i] == (ss + [x])[i] {
      assert tt[i] == BlockBits((cs + [c])[i], bs);
    }
    assert tt == ss + [x];
    FlatAppend(ss, x);
  }

  lemma DataAppend(cs: seq<Coded>, c: Coded, bs: nat)
    requires GoodBlocks(cs, bs) && GoodBlock(c, bs)
    ensures GoodBlocks(cs + [c], bs) && AllData(cs + [c], bs) == AllData(cs, bs) + DataOf(c, bs)
    ensures Combined(cs + [c], bs) == Mixed(Combined(cs, bs), BlockCrc(c, bs))
  {
    assert (cs + [c])[..|cs|] == cs;
  }

  // ---- Checksums are 32-bit numbers ----

  lemma {:induction false} XorBound(a: nat, b: nat, k: nat)
    requires a < Pow2(k) && b < Pow2(k)
    ensures BitXor(a, b) < Pow2(k)
    decreases k
  {
    if k > 0 { XorBound(a / 2, b / 2, k - 1); }
  }

  lemma {:induction false} OrBound(a: nat, b: nat, k: nat)
    requires a < Pow2(k) && b < Pow2(k)
    ensures BitOr(a, b) < Pow2(k)
    decreases k
  {
    if k > 0 { OrBound(a / 2, b / 2, k - 1); }
  }

  lemma Xor32(a: nat, b: nat)
    requires a < 0x100000000 && b < 0x100000000
    ensures BitXor(a, b) < 0x100000000
  {
    var k: nat := 32;
    assert Pow2(k) == 0x100000000 by { Pow2Table(); }
    XorBound(a, b, k);
  }

  lemma Or32(a: nat, b: nat)
    requires a < 0x100000000 && b < 0x100000000
    ensures BitOr(a, b) < 0x100000000
  {
    var k: nat := 32;
    assert Pow2(k) == 0x100000000 by { Pow2Table(); }
    OrBound(a, b, k);
  }

  lemma {:induction false} Shifted32(x: nat, n: nat)
    requires x < 0x100000000
    ensures Shifted(x, n) < 0x100000000
    decreases n
  {
    if n > 0 {
      if x >= 0x80000000 {
        Xor32(2 * x % 0x100000000, 0x04c11db7);
        Shifted32(BitXor(2 * x % 0x100000000, 0x04c11db7), n - 1);
      } else {
        Shifted32(2 * x, n - 1);
      }
    }
  }

  lemma Byte8(a: nat, b: nat)
    requires a < 256 && b < 256
    ensures BitXor(a, b) < 256
  {
    var k: nat := 8;
    assert Pow2(k) == 256 by { Pow2Table(); }
    XorBound(a, b, k);
  }

  lemma CrcUpdate32(crc: nat, ch: Byte)
    requires crc < 0x100000000
    ensures CrcUpdate(crc, ch) < 0x100000000
  {
    Byte8(crc / 0x1000000, ch);
    var k: nat := 8;
    Shifted32(BitXor(crc / 0x1000000, ch) * 0x1000000, k);
    Xor32(crc * 256 % 0x100000000, Shifted(BitXor(crc / 0x1000000, ch) * 0x1000000, k));
  }

  lemma {:induction false} CrcBytes32(crc: nat, s: seq<Byte>)
    requires crc < 0x100000000
    ensures CrcBytes(crc, s) < 0x100000000
  {
    if |s| > 0 {
      CrcBytes32(crc, s[..|s| - 1]);
      CrcUpdate32(CrcBytes(crc, s[..|s| - 1]), s[|s| - 1]);
    }
  }

  lemma BlockCrc32(c: Coded, bs: nat)
    requires GoodBlock(c, bs)
    ensures BlockCrc(c, bs) < 0x100000000
  {
    CrcBytes32(CrcInit, DataOf(c, bs));
    Xor32(CrcBytes(CrcInit, DataOf(c, bs)), 0xffffffff);
  }

  lemma Mixed32(combined: nat, crc: nat)
    requires combined < 0x100000000 && crc < 0x100000000
    ensures Mixed(combined, crc) < 0x100000000
  {
    Or32(combined * 2 % 0x100000000, combined / 0x80000000);
    Xor32(BitOr(combined * 2 % 0x100000000, combined / 0x80000000), crc);
  }

  lemma {:induction false} Combined32(cs: seq<Coded>, bs: nat)
    requires GoodBlocks(cs, bs)
    ensures Combined(cs, bs) < 0x100000000
  {
    if |cs| > 0 {
      Combined32(cs[..|cs| - 1], bs);
      BlockCrc32(cs[|cs| - 1], bs);
      Mixed32(Combined(cs[..|cs| - 1], bs), BlockCrc(cs[|cs| - 1], bs));
    }
  }

  // ---- What the format comes to ----

  lemma RotateNumbers(c: nat, up: nat, out: nat)
    requires c < 0x100000000 && up == c * 2 % 0x100000000 && out == c / 0x80000000
    ensures up % 2 == 0 && out < 2 && up + out == if c < 0x80000000 then 2 * c else 2 * c - 0xffffffff
  {
    if c < 0x80000000 {
      assert up == 2 * c && out == 0;
    } else {
      assert up == 2 * (c - 0x80000000) && out == 1;
    }
  }

  /** The combined checksum, rotated left by one bit as it is before a block's is mixed in. */
  lemma Rotated(combined: nat, up: nat, out: nat)
    requires combined < 0x100000000 && up == combined * 2 % 0x100000000 && out == combined / 0x80000000
    ensures BitOr(up, out) == if combined < 0x80000000 then 2 * combined else 2 * combined - 0xffffffff
  {
    RotateNumbers(combined, up, out);
    EvenOr(up, out);
  }

  lemma EvenOr(x: nat, y: nat)
    requires x % 2 == 0 && y < 2
    ensures BitOr(x, y) == x + y
  {
    var k: nat := 1;
    assert Pow2(k) == 2 by { Pow2Table(); }
    BitOrDisjoint(x, y, k);
  }

  lemma {:induction false} ZeroBytes(z: seq<Byte>)
    requires forall i :: 0 <= i < |z| ==> z[i] == 0
    ensures ByteBits(z) == Zeros(8 * |z|)
  {
    if |z| > 0 {
      var n := |z| - 1;
      ZeroBytes(z[..n]);
      assert ToBits(0, 8) == Zeros(8);
      assert Zeros(8 * n) + Zeros(8) == Zeros(8 * |z|);
    }
  }

  /** The stream of no data: BZh and the block size as a digit, the square root of pi, and a checksum of 0. */
  lemma EmptyStream(bs: nat, z: seq<Byte>)
    requires 1 <= bs <= 9 && |z| == 4 && forall i :: 0 <= i < 4 ==> z[i] == 0
    ensures StreamOf([0x42, 0x5a, 0x68, 0x30 + bs] + [0x17, 0x72, 0x45, 0x38, 0x50, 0x90] + z, [], bs, [], 0)
  {
    var h, e := Header(bs), EndMagic;
    ByteBitsConcat(h + e, z);
    ByteBitsConcat(h, e);
    ZeroBytes(z);
    var n: nat := 32;
    assert ToBits(0, n) == Zeros(n);
    assert Zeros(0) == [] && BlocksBits([], bs) == [];
  }
}
