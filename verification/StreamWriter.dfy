/** The pieces of a stream as BZ2_compressBlock in compress.c writes them. */
module StreamWriter {
  import opened Sequences
  import opened Bits
  import opened BitIO
  import opened RunLength
  import opened Crc
  import opened BlockParts
  import opened BlockWriter
  import opened StreamFormat

  /** bsPutUChar for each byte. */
  method PutBytes(w: BitWriter, s: seq<Byte>)
    requires w.Valid()
    modifies w
    ensures w.Appended(ByteBits(s))
  {
    for i := 0 to |s|
      invariant w.Appended(ByteBits(s[..i]))
    {
      assert s[..i + 1] == s[..i] + [s[i]];
      ByteBitsAppend(s[..i], s[i]);
      Assoc(old(w.written), ByteBits(s[..i]), ToBits(s[i], 8));
      assert s[i] < Pow2(8) by { Pow2Table(); }
      w.Write(8, s[i]);
    }
    assert s[..|s|] == s;
  }

  lemma JoinNumber(v: nat, hi: nat, lo: nat, m: nat, n: nat)
    requires hi < Pow2(m) && lo < Pow2(n) && v == hi * Pow2(n) + lo
    ensures ToBits(v, m + n) == ToBits(hi, m) + ToBits(lo, n)
  {
    var a, b := ToBits(hi, m), ToBits(lo, n);
    ValueToBits(hi, m);
    ValueToBits(lo, n);
    ValueConcat(a, b);
    ToBitsValue(a + b);
  }

  lemma JoinByte(hi: nat, n: nat, c: nat)
    requires hi < Pow2(n) && c < 256
    ensures hi * 256 + c < Pow2(n + 8) && ToBits(hi * 256 + c, n + 8) == ToBits(hi, n) + ToBits(c, 8)
  {
    var k: nat := 8;
    assert Pow2(k) == 256 by { Pow2Table(); }
    Pow2Add(n, k);
    JoinNumber(hi * 256 + c, hi, c, n, k);
  }

  /** The four bytes of a number: the first of k bits, the others of 8. */
  lemma FourBytes(u: nat, a: nat, b: nat, c: nat, d: nat, ab: nat, abc: nat, k: nat)
    requires ab == a * 256 + b && abc == ab * 256 + c && u == abc * 256 + d && a < Pow2(k) && b < 256 && c < 256 && d < 256
    ensures ToBits(u, k + 24) == ToBits(a, k) + ToBits(b, 8) + ToBits(c, 8) + ToBits(d, 8)
  {
    JoinByte(a, k, b);
    JoinByte(ab, k + 8, c);
    JoinByte(abc, k + 16, d);
  }

  lemma SplitFour(u: nat)
    requires u < 0x100000000
    ensures u / 0x10000 == u / 0x1000000 % 0x100 * 256 + u / 0x10000 % 0x100
    ensures u / 0x100 == u / 0x10000 * 256 + u / 0x100 % 0x100
    ensures u == u / 0x100 * 256 + u % 0x100
  {
  }

  lemma FourByteBits(a: Byte, b: Byte, c: Byte, d: Byte)
    ensures ByteBits([a, b, c, d]) == ToBits(a, 8) + ToBits(b, 8) + ToBits(c, 8) + ToBits(d, 8)
  {
    ByteBitsAppend([a, b, c], d);
    ByteBitsAppend([a, b], c);
    ByteBitsAppend([a], b);
    ByteBitsAppend([], a);
    assert [] + [a] == [a] && [a] + [b] == [a, b] && [a, b] + [c] == [a, b, c] && [a, b, c] + [d] == [a, b, c, d];
    assert [] + ToBits(a, 8) == ToBits(a, 8);
  }

  /** bsPutUInt32. */
  method PutUInt32(w: BitWriter, u: nat)
    requires w.Valid() && u < 0x100000000
    modifies w
    ensures w.Appended(ToBits(u, 32))
  {
    var a, b, c, d := u / 0x1000000 % 0x100, u / 0x10000 % 0x100, u / 0x100 % 0x100, u % 0x100;
    SplitFour(u);
    assert a < Pow2(8) by { Pow2Table(); }
    FourBytes(u, a, b, c, d, u / 0x10000, u / 0x100, 8);
    PutBytes(w, [a, b, c, d]);
    FourByteBits(a, b, c, d);
  }

  /** A block: its mark, its checksum and its body. */
  method WriteBlock(w: BitWriter, b: seq<Byte>, inUse: seq<bool>, blockCRC: nat, blockSize100k: nat, ghost runs: seq<Run>)
      returns (ghost c: Coded, ghost bits: seq<bool>)
    requires w.Valid() && 0 < |b| <= 100000 * blockSize100k - 10 <= 900000 && inUse == InUse(b)
    requires WellFormed(runs) && b == Pairs(runs)
    requires blockCRC == FinalCrc(CrcBytes(CrcInit, RunBytes(runs)))
    modifies w
    ensures GoodBlock(c, blockSize100k) && c.runs == runs && c.parts.b == b && BlockCrc(c, blockSize100k) == blockCRC
    ensures bits == BlockBits(c, blockSize100k) && w.Appended(bits)
  {
    PutBytes(w, BlockMagic);
    CrcBytes32(CrcInit, RunBytes(runs));
    Xor32(CrcBytes(CrcInit, RunBytes(runs)), 0xffffffff);
    PutUInt32(w, blockCRC);
    ghost var p := WriteBody(w, b, inUse);
    c := Coded(p, runs);
    assert UnfoldBlock(0);
    bits := BlockBits(c, blockSize100k);
    Three(old(w.written), ByteBits(BlockMagic), ToBits(blockCRC, 32), BodyBits(p));
  }

  lemma Three(x: seq<bool>, a: seq<bool>, b: seq<bool>, c: seq<bool>)
    ensures x + a + b + c == x + (a + (b + c))
  {
  }

  /** The trailer, filled up to a byte. */
  method WriteTrailer(w: BitWriter, combinedCRC: nat) returns (ghost pad: nat)
    requires w.Valid() && combinedCRC < 0x100000000
    modifies w
    ensures pad < 8 && w.Appended(TrailerBits(combinedCRC) + Zeros(pad))
    ensures w.bsLive == 0
  {
    PutBytes(w, EndMagic);
    PutUInt32(w, combinedCRC);
    ghost var before := w.written;
    w.Finish();
    pad :| pad < 8 && w.written == before + Zeros(pad);
    Three(old(w.written), ByteBits(EndMagic), ToBits(combinedCRC, 32), Zeros(pad));
    Assoc(ByteBits(EndMagic), ToBits(combinedCRC, 32), Zeros(pad));
  }
}
