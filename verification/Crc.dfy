/** The block checksum of bzip2: a 32-bit CRC, most significant bit first, one byte at a time
    (bzlib_private.h). The table entry for a byte is given by its generating shifts. */
module Crc {
  import opened Sequences
  import opened Bits

  const CrcInit: nat := 0xffffffff

  /** n shifts of the register, subtracting the polynomial for each bit shifted out. */
  function Shifted(x: nat, n: nat): nat
    decreases n
  {
    if n == 0 then x
    else Shifted(if x >= 0x80000000 then BitXor(2 * x % 0x100000000, 0x04c11db7) else 2 * x, n - 1)
  }

  function CrcUpdate(crc: nat, ch: Byte): nat {
    BitXor(crc * 256 % 0x100000000, Shifted(BitXor(crc / 0x1000000, ch) * 0x1000000, 8))
  }

  function CrcBytes(crc: nat, s: seq<Byte>): nat {
    if |s| == 0 then crc else CrcUpdate(CrcBytes(crc, s[..|s| - 1]), s[|s| - 1])
  }

  lemma CrcAppend(crc: nat, s: seq<Byte>, ch: Byte)
    ensures CrcBytes(crc, s + [ch]) == CrcUpdate(CrcBytes(crc, s), ch)
  {
    assert (s + [ch])[..|s|] == s;
  }

  lemma {:induction false} CrcConcat(crc: nat, s: seq<Byte>, t: seq<Byte>)
    ensures CrcBytes(crc, s + t) == CrcBytes(CrcBytes(crc, s), t)
  {
    if |t| == 0 {
      assert s + t == s;
    } else {
      var a, z := t[..|t| - 1], t[|t| - 1];
      CrcConcat(crc, s, a);
      assert s + t == (s + a) + [z];
      CrcAppend(crc, s + a, z);
    }
  }

  /** BZ_FINALISE_CRC. */
  function FinalCrc(crc: nat): nat { BitXor(crc, 0xffffffff) }
}
