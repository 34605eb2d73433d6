/** What the length and distance symbols of deflate stand for: the base values and extra bits of inftrees.c
    against section 3.2.5 of RFC 1951. */
module DeflateAlphabet {
  import opened Bits
  import opened TableFill
  import opened InflateTable

  /** The number of extra bits of the i-th length symbol and of the i-th distance symbol. */
  ghost function LengthBits(i: nat): nat { if 8 <= i < 28 then i / 4 - 1 else 0 }
  ghost function DistBits(i: nat): nat { if i >= 4 then i / 2 - 1 else 0 }

  lemma SmallPowers()
    ensures Pow2(0) == 1 && Pow2(1) == 2 && Pow2(2) == 4 && Pow2(3) == 8 && Pow2(4) == 16 && Pow2(5) == 32 && Pow2(6) == 64
    ensures Pow2(7) == 128 && Pow2(8) == 256 && Pow2(9) == 512 && Pow2(10) == 1024 && Pow2(11) == 2048 && Pow2(12) == 4096 && Pow2(13) == 8192
  {
  }

  lemma LengthExtraIs(i: nat)
    requires i < 29
    ensures LengthExtra(i) == 16 + LengthBits(i)
  {
  }

  lemma DistExtraIs(i: nat)
    requires i < 30
    ensures DistExtra(i) == 16 + DistBits(i)
  {
  }

  /** Each length symbol takes up where the one before it ends. */
  lemma LengthNext(i: nat)
    requires i < 27
    ensures LengthBase(0) == 3 && LengthBase(i + 1) == LengthBase(i) + Pow2(LengthBits(i))
  {
    SmallPowers();
  }

  lemma DistNext(i: nat)
    requires i < 29
    ensures DistBase(0) == 1 && DistBase(i + 1) == DistBase(i) + Pow2(DistBits(i))
  {
    SmallPowers();
  }

  // ---- Lengths ----

  /** Length symbol s with x in its extra bits stands for len. */
  ghost predicate LengthOf(s: nat, x: nat, len: nat) {
    257 <= s <= 285 && x < Pow2(LengthBits(s - 257)) && len == LengthBase(s - 257) + x
  }

  lemma {:induction false} LengthsRise(i: nat, j: nat)
    requires i < j < 28
    ensures LengthBase(i) + Pow2(LengthBits(i)) <= LengthBase(j)
    decreases j
  {
    if i < j - 1 { LengthsRise(i, j - 1); }
    LengthNext(j - 1);
  }

  lemma {:induction false} FindLength(len: nat, i: nat) returns (s: nat, x: nat)
    requires i < 28 && LengthBase(i) <= len <= 258
    ensures s <= 284 && LengthOf(s, x, len)
    decreases 28 - i
  {
    if len < LengthBase(i) + Pow2(LengthBits(i)) {
      s, x := 257 + i, len - LengthBase(i);
    } else if i < 27 {
      LengthNext(i);
      s, x := FindLength(len, i + 1);
    } else {
      LastLength();
      assert false;
    }
  }

  lemma LastLength()
    ensures LengthBase(27) + Pow2(LengthBits(27)) == 259 && LengthBase(28) == 258 && LengthBits(28) == 0
  {
    SmallPowers();
  }

  /** Every length from 3 to 258 has a symbol and extra bits. */
  lemma LengthCoded(len: nat) returns (s: nat, x: nat)
    requires 3 <= len <= 258
    ensures s <= 284 && LengthOf(s, x, len)
  {
    LengthNext(0);
    s, x := FindLength(len, 0);
  }

  /** Only one, but that symbol 285 stands for 258 too, without extra bits; and no other length has one. */
  lemma LengthOnce(s: nat, x: nat, s': nat, x': nat, len: nat)
    requires LengthOf(s, x, len) && LengthOf(s', x', len)
    ensures 3 <= len <= 258 && (s == 285 ==> len == 258 && x == 0) && (s != 285 && s' != 285 ==> s == s' && x == x')
  {
    LengthNext(0);
    LastLength();
    if 257 < s < 285 { LengthsRise(0, s - 257); }
    if s < 284 { LengthsRise(s - 257, 27); }
    if s < s' < 285 { LengthsRise(s - 257, s' - 257); }
    if s' < s < 285 { LengthsRise(s' - 257, s - 257); }
  }

  // ---- Distances ----

  ghost predicate DistanceOf(s: nat, x: nat, dist: nat) {
    s < 30 && x < Pow2(DistBits(s)) && dist == DistBase(s) + x
  }

  lemma {:induction false} DistancesRise(i: nat, j: nat)
    requires i < j < 30
    ensures DistBase(i) + Pow2(DistBits(i)) <= DistBase(j)
    decreases j
  {
    if i < j - 1 { DistancesRise(i, j - 1); }
    DistNext(j - 1);
  }

  lemma LastDistance()
    ensures DistBase(29) + Pow2(DistBits(29)) == 32769
  {
    SmallPowers();
  }

  lemma {:induction false} FindDistance(dist: nat, i: nat) returns (s: nat, x: nat)
    requires i < 30 && DistBase(i) <= dist <= 32768
    ensures DistanceOf(s, x, dist)
    decreases 30 - i
  {
    if dist < DistBase(i) + Pow2(DistBits(i)) {
      s, x := i, dist - DistBase(i);
    } else if i < 29 {
      DistNext(i);
      s, x := FindDistance(dist, i + 1);
    } else {
      LastDistance();
      assert false;
    }
  }

  /** Every distance from 1 to 32768 has a symbol and extra bits. */
  lemma DistanceCoded(dist: nat) returns (s: nat, x: nat)
    requires 1 <= dist <= 32768
    ensures DistanceOf(s, x, dist)
  {
    DistNext(0);
    s, x := FindDistance(dist, 0);
  }

  /** Only one, and no other distance has one. */
  lemma DistanceOnce(s: nat, x: nat, s': nat, x': nat, dist: nat)
    requires DistanceOf(s, x, dist) && DistanceOf(s', x', dist)
    ensures 1 <= dist <= 32768 && s == s' && x == x'
  {
    DistNext(0);
    LastDistance();
    if s > 0 { DistancesRise(0, s); }
    if s < 29 { DistancesRise(s, 29); }
    if s < s' { DistancesRise(s, s'); }
    if s' < s { DistancesRise(s', s); }
  }

  // ---- Entries ----

  /** What the entry of a literal or length symbol says: the byte, the end of the block, or a length; the two
      symbols that are not in use are marked invalid. */
  lemma LensEntryMeans(s: nat, bits: nat, x: nat)
    requires s < 288
    ensures var e := EntryFor(Lens, s, bits);
      && (s < 256 ==> e.op == 0 && e.val == s)
      && (s == 256 ==> e.op == 32 + 64)
      && (257 <= s <= 285 ==> e.op == 16 + LengthBits(s - 257) && (x < Pow2(e.op - 16) ==> LengthOf(s, x, e.val + x)))
      && (s > 285 ==> 64 <= e.op < 96 && e.op % 32 < 16)
  {
    if 257 <= s <= 285 {
      LengthExtraIs(s - 257);
    } else if s > 285 {
      assert LengthExtra(s - 257) == if s == 286 then 78 else 68;
    }
  }

  lemma DistsEntryMeans(s: nat, bits: nat, x: nat)
    requires s < 32
    ensures var e := EntryFor(Dists, s, bits);
      && (s < 30 ==> e.op == 16 + DistBits(s) && (x < Pow2(e.op - 16) ==> DistanceOf(s, x, e.val + x)))
      && (s >= 30 ==> e.op == 64)
  {
    if s < 30 { DistExtraIs(s); } else { UnusedDistances(s); }
  }

  lemma UnusedDistances(s: nat)
    requires 30 <= s < 32
    ensures DistExtra(s) == 64
  {
  }
}
