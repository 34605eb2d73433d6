/** Which polynomials the two checksums have: the entries of their tables at the powers of two, as crc32.h
    and crctable.c list them, and the law that gives all other entries from these. */
module CrcValues {
  import opened Sequences
  import opened Bits
  import opened CodeWords
  import opened ZlibCrc
  import Crc

  // ---- zlib ----

  /** Exclusive or; the count only keeps the verifier from working it out. */
  ghost function XorSealed(z: nat, a: nat, b: nat): nat
    decreases z, a
  {
    if z == 0 then BitXor(a, b) else XorSealed(z - 1, a, b)
  }

  lemma {:induction false} XorSeal(z: nat, a: nat, b: nat)
    ensures XorSealed(z, a, b) == BitXor(a, b)
    decreases z
  {
    if z > 0 { XorSeal(z - 1, a, b); }
  }

  ghost function X(a: nat, b: nat): nat { XorSealed(9, a, b) }

  lemma XorLowBit(p: nat, u: nat, q: nat, v: nat)
    requires p <= 1 && q <= 1
    ensures X(p + 2 * u, q + 2 * v) == (if p != q then 1 else 0) + 2 * X(u, v)
  {
    assert (p + 2 * u) / 2 == u && (q + 2 * v) / 2 == v;
    XorSeal(9, p + 2 * u, q + 2 * v);
    XorSeal(9, u, v);
  }

  lemma {:induction false} NumberXor(a: seq<bool>, b: seq<bool>)
    requires |a| == |b|
    ensures Number(XorBits(a, b)) == X(Number(a), Number(b))
  {
    XorSeal(9, 0, 0);
    if |a| > 0 {
      NumberXor(a[1..], b[1..]);
      assert XorBits(a, b)[1..] == XorBits(a[1..], b[1..]);
      XorLowBit(if a[0] then 1 else 0, Number(a[1..]), if b[0] then 1 else 0, Number(b[1..]));
    }
  }

  lemma ShiftHalves(c: Word)
    ensures Number(Shr(c, 1)) == Number(c) / 2
  {
    NumberPadded(c[1..], 1);
  }

  /** A register whose lowest bit is clear is halved; otherwise the polynomial comes in. */
  lemma StepNumber(c: Word, n: nat)
    requires Number(c) == n
    ensures n % 2 == 0 ==> Number(Step(c)) == n / 2
    ensures n % 2 == 1 ==> Number(Step(c)) == X(Number(Poly()), n / 2)
  {
    LowestBit(c);
    ShiftHalves(c);
    XorNumber(Poly(), Shr(c, 1));
  }

  lemma XorNumber(a: Word, b: Word)
    ensures Number(Xor(a, b)) == X(Number(a), Number(b))
  {
    NumberXor(a, b);
    assert Xor(a, b) == XorBits(a, b);
  }

  lemma LowestBit(c: Word)
    ensures c[0] <==> Number(c) % 2 == 1
  {
  }

  lemma PolyBits()
    ensures var t, f := true, false;
      Poly() == [f, f, f, f, f, t, f, f] + [t, t, f, f, f, f, f, t] + [f, f, f, t, t, t, f, t] + [t, f, t, t, f, t, t, t]
  {
  }

  lemma EightBits(b: seq<bool>)
    requires |b| == 8
    ensures Number(b) == (if b[0] then 1 else 0) + (if b[1] then 2 else 0) + (if b[2] then 4 else 0) + (if b[3] then 8 else 0)
                         + (if b[4] then 16 else 0) + (if b[5] then 32 else 0) + (if b[6] then 64 else 0) + (if b[7] then 128 else 0)
  {
    var c := b[4..];
    FourBits(b);
    FourBits(c);
    assert c[4..] == [];
  }

  lemma FourBits(b: seq<bool>)
    requires |b| >= 4
    ensures Number(b) == (if b[0] then 1 else 0) + (if b[1] then 2 else 0) + (if b[2] then 4 else 0) + (if b[3] then 8 else 0) + 16 * Number(b[4..])
  {
    assert b[1..][1..] == b[2..] && b[2..][1..] == b[3..] && b[3..][1..] == b[4..];
    assert Number(b[3..]) == (if b[3] then 1 else 0) + 2 * Number(b[4..]);
    assert Number(b[2..]) == (if b[2] then 1 else 0) + 2 * Number(b[3..]);
    assert Number(b[1..]) == (if b[1] then 1 else 0) + 2 * Number(b[2..]);
  }

  lemma LowByte(a: seq<bool>, b: seq<bool>)
    requires |a| == 8
    ensures Number(a + b) == Number(a) + 256 * Number(b)
  {
    var c := a + b;
    FourBits(c);
    FourBits(c[4..]);
    EightBits(a);
    assert c[4..][4..] == b;
  }

  lemma FourBytes(a: seq<bool>, b: seq<bool>, c: seq<bool>, d: seq<bool>)
    requires |a| == |b| == |c| == |d| == 8
    ensures Number(a + b + c + d) == Number(a) + 0x100 * Number(b) + 0x10000 * Number(c) + 0x1000000 * Number(d)
  {
    LowByte(a, b + (c + d));
    LowByte(b, c + d);
    LowByte(c, d);
    assert a + b + c + d == a + (b + (c + d));
  }

  /** The polynomial, with the lowest power in the highest bit. */
  lemma PolyIs()
    ensures Number(Poly()) == 0xedb88320
  {
    var t, f := true, false;
    var a, b, c, d := [f, f, f, f, f, t, f, f], [t, t, f, f, f, f, f, t], [f, f, f, t, t, t, f, t], [t, f, t, t, f, t, t, t];
    PolyBits();
    EightBits(a);
    EightBits(b);
    EightBits(c);
    EightBits(d);
    FourBytes(a, b, c, d);
  }

  /** n, a register without and with its lowest bit, after one step. */
  ghost function StepOf(p: nat, n: nat): nat { if n % 2 == 0 then n / 2 else X(p, n / 2) }

  /** The polynomial p after k steps through the register, as a number. */
  ghost function Power(p: nat, k: nat): nat
    decreases k, p
  {
    if k == 0 then p else StepOf(p, Power(p, k - 1))
  }

  /** The number of a word; the count only keeps the verifier from working it out. */
  ghost predicate HasNumber(z: nat, c: Word, n: nat)
    decreases z, n
  {
    if z == 0 then Number(c) == n else HasNumber(z - 1, c, n)
  }

  lemma {:induction false} NumberSeal(z: nat, c: Word, n: nat)
    ensures HasNumber(z, c, n) <==> Number(c) == n
    decreases z
  {
    if z > 0 { NumberSeal(z - 1, c, n); }
  }

  lemma NextPower(c: Word, p: nat, n: nat)
    requires HasNumber(9, c, n) && HasNumber(9, Poly(), p)
    ensures HasNumber(9, Step(c), StepOf(p, n))
  {
    NumberSeal(9, c, n);
    NumberSeal(9, Poly(), p);
    StepNumber(c, n);
    NumberSeal(9, Step(c), StepOf(p, n));
  }

  lemma {:induction false} WordPower(w: Word, k: nat, p: nat)
    requires HasNumber(9, w, p) && HasNumber(9, Poly(), p)
    ensures HasNumber(9, Zeros(w, k), Power(p, k))
    decreases k
  {
    if k > 0 {
      WordPower(w, k - 1, p);
      NextPower(Zeros(w, k - 1), p, Power(p, k - 1));
    }
  }

  /** Four bits at a time. */
  lemma XorNibble(p0: nat, p1: nat, p2: nat, p3: nat, u: nat, q0: nat, q1: nat, q2: nat, q3: nat, v: nat)
    requires p0 <= 1 && p1 <= 1 && p2 <= 1 && p3 <= 1 && q0 <= 1 && q1 <= 1 && q2 <= 1 && q3 <= 1
    ensures X(p0 + 2 * p1 + 4 * p2 + 8 * p3 + 16 * u, q0 + 2 * q1 + 4 * q2 + 8 * q3 + 16 * v)
            == (if p0 != q0 then 1 else 0) + (if p1 != q1 then 2 else 0) + (if p2 != q2 then 4 else 0) + (if p3 != q3 then 8 else 0) + 16 * X(u, v)
  {
    XorLowBit(p3, u, q3, v);
    XorLowBit(p2, p3 + 2 * u, q2, q3 + 2 * v);
    XorLowBit(p1, p2 + 2 * (p3 + 2 * u), q1, q2 + 2 * (q3 + 2 * v));
    XorLowBit(p0, p1 + 2 * (p2 + 2 * (p3 + 2 * u)), q0, q1 + 2 * (q2 + 2 * (q3 + 2 * v)));
  }

  lemma NibbleXor(p: nat, q: nat, r: nat, u: nat, v: nat, p0: nat, p1: nat, p2: nat, p3: nat, q0: nat, q1: nat, q2: nat, q3: nat)
    requires p0 <= 1 && p1 <= 1 && p2 <= 1 && p3 <= 1 && q0 <= 1 && q1 <= 1 && q2 <= 1 && q3 <= 1
    requires p == p0 + 2 * p1 + 4 * p2 + 8 * p3 + 16 * u && q == q0 + 2 * q1 + 4 * q2 + 8 * q3 + 16 * v && X(u, v) == r
    ensures X(p, q) == (if p0 != q0 then 1 else 0) + (if p1 != q1 then 2 else 0) + (if p2 != q2 then 4 else 0) + (if p3 != q3 then 8 else 0) + 16 * r
  {
    XorNibble(p0, p1, p2, p3, u, q0, q1, q2, q3, v);
  }

  lemma OneXor8(p: nat, q: nat)
    requires p == 0xed && q == 0x3
    ensures X(p, q) == 0xee
  {
    var p8: nat, q8: nat := 0x0, 0x0;
    XorSeal(9, 0, 0);
    var p7: nat, q7: nat := 0xe, 0x0;
    NibbleXor(p7, q7, 0x0, p8, q8, 0, 1, 1, 1, 0, 0, 0, 0);
    NibbleXor(p, q, 0xe, p7, q7, 1, 0, 1, 1, 1, 1, 0, 0);
  }

  lemma OneXor16(p: nat, q: nat)
    requires p == 0xedb8 && q == 0x3b6
    ensures X(p, q) == 0xee0e
  {
    var p6: nat, q6: nat := 0xed, 0x3;
    OneXor8(p6, q6);
    var p5: nat, q5: nat := 0xedb, 0x3b;
    NibbleXor(p5, q5, 0xee, p6, q6, 1, 1, 0, 1, 1, 1, 0, 1);
    NibbleXor(p, q, 0xee0, p5, q5, 0, 0, 0, 1, 0, 1, 1, 0);
  }

  lemma OneXor24(p: nat, q: nat)
    requires p == 0xedb883 && q == 0x3b6e2
    ensures X(p, q) == 0xee0e61
  {
    var p4: nat, q4: nat := 0xedb8, 0x3b6;
    OneXor16(p4, q4);
    var p3: nat, q3: nat := 0xedb88, 0x3b6e;
    NibbleXor(p3, q3, 0xee0e, p4, q4, 0, 0, 0, 1, 0, 1, 1, 1);
    NibbleXor(p, q, 0xee0e6, p3, q3, 1, 1, 0, 0, 0, 1, 0, 0);
  }

  lemma OneXor(p: nat, q: nat)
    requires p == 0xedb88320 && q == 0x3b6e20c
    ensures X(p, q) == 0xee0e612c
  {
    var p2: nat, q2: nat := 0xedb883, 0x3b6e2;
    OneXor24(p2, q2);
    var p1: nat, q1: nat := 0xedb8832, 0x3b6e20;
    NibbleXor(p1, q1, 0xee0e61, p2, q2, 0, 1, 0, 0, 0, 0, 0, 0);
    NibbleXor(p, q, 0xee0e612, p1, q1, 0, 0, 0, 0, 0, 0, 1, 1);
  }

  lemma Powers(p: nat)
    requires p == 0xedb88320
    ensures Power(p, 0) == 0xedb88320 && Power(p, 1) == 0x76dc4190 && Power(p, 2) == 0x3b6e20c8 && Power(p, 3) == 0x1db71064
    ensures Power(p, 4) == 0x0edb8832 && Power(p, 5) == 0x076dc419 && Power(p, 6) == 0xee0e612c && Power(p, 7) == 0x77073096
  {
    OneXor(p, 0x03b6e20c);
    assert Power(p, 1) == 0x76dc4190;
    assert Power(p, 2) == 0x3b6e20c8;
    assert Power(p, 3) == 0x1db71064;
    assert Power(p, 4) == 0x0edb8832;
    assert Power(p, 5) == 0x076dc419;
    assert Power(p, 6) == 0xee0e612c;
  }

  lemma UnitOut()
    ensures Step(Unit(0)) == Poly()
  {
    assert Shr(Unit(0), 1) == Zero();
    XorZero(Poly());
  }

  lemma UnitDown(k: nat)
    requires k < 8
    ensures Zeros(Unit(k), k) == Unit(0)
  {
    ZerosShift(Unit(k), k);
    assert Shr(Unit(k), k) == Unit(0);
  }

  /** Bit k of a byte leaves the polynomial after k + 1 steps, and then 7 - k more. */
  lemma BitThrough(k: nat, w: Word)
    requires k < 8 && w == Step(Unit(0))
    ensures Zeros(Unit(k), 8) == Zeros(w, 7 - k)
  {
    assert Zeros(Unit(k), k + 1) == w by { UnitDown(k); }
    var n := 7 - k;
    ZerosAdd(Unit(k), k + 1, n);
    assert k + 1 + n == 8;
  }

  lemma {:induction false} BitsOfPower(k: nat, n: nat)
    requires k < n
    ensures forall i :: 0 <= i < n ==> (BitsOf(Pow2(k), n)[i] <==> i == k)
  {
    if k == 0 {
      BitsOfNothing(n - 1);
    } else {
      BitsOfPower(k - 1, n - 1);
    }
  }

  lemma {:induction false} BitsOfNothing(n: nat)
    ensures forall i :: 0 <= i < n ==> !BitsOf(0, n)[i]
  {
    if n > 0 { BitsOfNothing(n - 1); }
  }

  /** The entry of the first table at a power of two. */
  lemma EntryAtPower(t: seq<Word>, k: nat, m: nat, p: nat)
    requires IsTable(t, 0) && k < 8 && m == Pow2(k) && p == Number(Poly())
    ensures m < 256 && Number(t[m]) == Power(p, 7 - k)
  {
    Pow2Below(k);
    var w := Step(Unit(0));
    assert Number(w) == p by { UnitOut(); }
    assert t[m] == Zeros(w, 7 - k) by {
      assert t[m] == Zeros(Placed(BitsOf(m, 8), 0), 8) by { assert UnfoldTable(0); }
      PlacedPower(k);
      BitThrough(k, w);
    }
    NumberSeal(9, w, p);
    NumberSeal(9, Poly(), p);
    WordPower(w, 7 - k, p);
    NumberSeal(9, t[m], Power(p, 7 - k));
  }

  lemma PlacedPower(k: nat)
    requires k < 8
    ensures Placed(BitsOf(Pow2(k), 8), 0) == Unit(k)
  {
    var eight: nat := 8;
    BitsOfPower(k, eight);
  }

  lemma Pow2Below(k: nat)
    requires k < 8
    ensures Pow2(k) < 256
  {
    Pow2Monotone(k, 7);
    assert Pow2(7) == 128;
  }

  lemma EntryIs(t: seq<Word>, k: nat, m: nat, p: nat)
    requires IsTable(t, 0) && k < 8 && m == Pow2(k) && p == 0xedb88320
    ensures m < 256 && Number(t[m]) == Power(p, 7 - k)
  {
    PolyIs();
    EntryAtPower(t, k, m, p);
  }

  /** The first table of crc32.h at the powers of two. */
  lemma ZlibTable(t: seq<Word>, k: nat)
    requires IsTable(t, 0) && k < 8
    ensures Pow2(k) < 256
    ensures Number(t[Pow2(k)]) == [0x77073096, 0xee0e612c, 0x076dc419, 0x0edb8832, 0x1db71064, 0x3b6e20c8, 0x76dc4190, 0xedb88320][k]
  {
    var p: nat := 0xedb88320;
    EntryIs(t, k, Pow2(k), p);
    Powers(p);
  }

  /** In every table, the entry for the exclusive-or of two bytes is that of their entries: the entries
      at the powers of two give all. */
  lemma TableLinear(t: seq<Word>, k: nat, a: Octet, b: Octet)
    requires IsTable(t, k)
    ensures Number(a) < 256 && Number(b) < 256 && Number(XorBits(a, b)) < 256
    ensures t[Number(XorBits(a, b))] == Xor(t[Number(a)], t[Number(b)])
  {
    OctetEntry(t, k, a);
    OctetEntry(t, k, b);
    OctetEntry(t, k, XorBits(a, b));
    assert Placed(XorBits(a, b), 0) == Xor(Placed(a, 0), Placed(b, 0));
    ZerosLinear(Placed(a, 0), Placed(b, 0), 8 * (k + 1));
  }

  lemma OctetEntry(t: seq<Word>, k: nat, a: Octet)
    requires IsTable(t, k)
    ensures Number(a) < 256 && t[Number(a)] == Zeros(Placed(a, 0), 8 * (k + 1))
  {
    assert UnfoldTable(0);
    IndexOctet(a);
  }

  /** The register starts and ends complemented: four bytes of ones leave all ones. */
  lemma OnesCancel(o: Octet)
    requires forall i :: 0 <= i < 8 ==> o[i]
    ensures ZlibCrc.Crc(Zero(), [o, o, o, o]) == Ones()
  {
    var s := [o, o, o, o];
    RegisterPacked(Not(Zero()), s);
    FourOnes(o, s);
    XorSame(Ones());
    XorZero(Ones());
    var n: nat := 32;
    ZerosShift(Zero(), n);
    assert Shr(Zero(), n) == Zero();
  }

  lemma XorSame(w: Word)
    ensures Xor(w, w) == Zero()
  {
  }

  lemma FourOnes(o: Octet, s: seq<Octet>)
    requires (forall i :: 0 <= i < 8 ==> o[i]) && s == [o, o, o, o]
    ensures Packed(s) == Ones()
  {
    assert s[..3] == [o, o, o] && s[..3][..2] == [o, o] && s[..3][..2][..1] == [o] && [o][..0] == [];
    var a, b, c, d := Placed(o, 0), Placed(o, 1), Placed(o, 2), Placed(o, 3);
    assert Packed([o]) == Xor(Zero(), a);
    assert Packed([o, o]) == Xor(Packed([o]), b);
    assert Packed([o, o, o]) == Xor(Packed([o, o]), c);
    assert Packed(s) == Xor(Packed([o, o, o]), d);
  }

  // ---- bzip2 ----

  const BzPoly: nat := 0x04c11db7

  lemma {:induction false} ShiftedAdd(x: nat, m: nat, n: nat)
    ensures Crc.Shifted(x, m + n) == Crc.Shifted(Crc.Shifted(x, m), n)
    decreases m
  {
    if m > 0 {
      var y := if x >= 0x80000000 then BitXor(2 * x % 0x100000000, 0x04c11db7) else 2 * x;
      ShiftedAdd(y, m - 1, n);
      assert m + n - 1 == m - 1 + n;
    }
  }

  /** One shift of the register. */
  ghost function Shift(x: nat): nat { if x >= 0x80000000 then X(2 * x % 0x100000000, BzPoly) else 2 * x }

  lemma ShiftIs(x: nat, n: nat)
    requires n > 0
    ensures Crc.Shifted(x, n) == Crc.Shifted(Shift(x), n - 1)
  {
    XorSeal(9, 2 * x % 0x100000000, BzPoly);
  }

  lemma {:induction false} Doubled(x: nat, d: nat)
    requires x * Pow2(d) <= 0x80000000 && x > 0
    ensures Crc.Shifted(x, d) == x * Pow2(d)
    decreases d
  {
    if d > 0 {
      MulSwap(x, Pow2(d - 1));
      TimesAssoc(2, x, Pow2(d - 1));
      AtLeast(x, Pow2(d - 1));
      Doubled(2 * x, d - 1);
    }
  }

  lemma AtLeast(x: nat, p: nat)
    requires p >= 1
    ensures x * p >= x
  {
    MultipleAtLeast(p, if x > 0 then x else 1);
    MulCommutes(x, p);
  }

  lemma LateXor8(p: nat, q: nat)
    requires p == 0x30 && q == 0x4
    ensures X(p, q) == 0x34
  {
    var p8: nat, q8: nat := 0x0, 0x0;
    XorSeal(9, 0, 0);
    var p7: nat, q7: nat := 0x3, 0x0;
    NibbleXor(p7, q7, 0x0, p8, q8, 1, 1, 0, 0, 0, 0, 0, 0);
    NibbleXor(p, q, 0x3, p7, q7, 0, 0, 0, 0, 0, 0, 1, 0);
  }

  lemma LateXor16(p: nat, q: nat)
    requires p == 0x3047 && q == 0x4c1
    ensures X(p, q) == 0x3486
  {
    var p6: nat, q6: nat := 0x30, 0x4;
    LateXor8(p6, q6);
    var p5: nat, q5: nat := 0x304, 0x4c;
    NibbleXor(p5, q5, 0x34, p6, q6, 0, 0, 1, 0, 0, 0, 1, 1);
    NibbleXor(p, q, 0x348, p5, q5, 1, 1, 1, 0, 1, 0, 0, 0);
  }

  lemma LateXor24(p: nat, q: nat)
    requires p == 0x30476d && q == 0x4c11d
    ensures X(p, q) == 0x348670
  {
    var p4: nat, q4: nat := 0x3047, 0x4c1;
    LateXor16(p4, q4);
    var p3: nat, q3: nat := 0x30476, 0x4c11;
    NibbleXor(p3, q3, 0x3486, p4, q4, 0, 1, 1, 0, 1, 0, 0, 0);
    NibbleXor(p, q, 0x34867, p3, q3, 1, 0, 1, 1, 1, 0, 1, 1);
  }

  lemma LateXor(p: nat, q: nat)
    requires p == 0x30476dc0 && q == 0x4c11db7
    ensures X(p, q) == 0x34867077
  {
    var p2: nat, q2: nat := 0x30476d, 0x4c11d;
    LateXor24(p2, q2);
    var p1: nat, q1: nat := 0x30476dc, 0x4c11db;
    NibbleXor(p1, q1, 0x348670, p2, q2, 0, 0, 1, 1, 1, 1, 0, 1);
    NibbleXor(p, q, 0x3486707, p1, q1, 0, 0, 0, 0, 1, 1, 1, 0);
  }

  lemma {:induction false} XorNothing(a: nat)
    ensures BitXor(0, a) == a
  {
    if a > 0 { XorNothing(a / 2); }
  }

  /** The polynomial through k shifts. */
  lemma PolyShifts(k: nat, p: nat)
    requires k < 8 && p == BzPoly
    ensures Crc.Shifted(p, k) == [0x04c11db7, 0x09823b6e, 0x130476dc, 0x2608edb8, 0x4c11db70, 0x9823b6e0, 0x34867077, 0x690ce0ee][k]
  {
    if k <= 5 {
      EarlyShifts(k, p);
    } else {
      EarlyShifts(5, p);
      ShiftedAdd(p, 5, k - 5);
      var x: nat, y: nat, q: nat := 0x9823b6e0, 0x30476dc0, BzPoly;
      LateXor(y, q);
      ShiftIs(x, k - 5);
      if k == 7 { ShiftIs(0x34867077, 1); }
    }
  }

  lemma EarlyShifts(k: nat, p: nat)
    requires k <= 5 && p == BzPoly
    ensures Crc.Shifted(p, k) == [0x04c11db7, 0x09823b6e, 0x130476dc, 0x2608edb8, 0x4c11db70, 0x9823b6e0][k]
  {
    if k == 5 {
      var y: nat := 0x4c11db70;
      EarlyShifts(4, p);
      ShiftedAdd(p, 4, 1);
      ShiftIs(y, 1);
    } else {
      assert Pow2(0) == 1 && Pow2(1) == 2 && Pow2(2) == 4 && Pow2(3) == 8 && Pow2(4) == 16;
      Doubled(p, k);
    }
  }

  /** The table of crctable.c at the powers of two. */
  lemma BzTable(k: nat)
    requires k < 8
    ensures Crc.Shifted(Pow2(k) * 0x1000000, 8)
            == [0x04c11db7, 0x09823b6e, 0x130476dc, 0x2608edb8, 0x4c11db70, 0x9823b6e0, 0x34867077, 0x690ce0ee][k]
  {
    TopBit(k);
    BitShifts(k, Pow2(k) * 0x1000000, BzPoly);
    PolyShifts(k, BzPoly);
  }

  lemma XorWithZero(a: nat)
    ensures X(0, a) == a
  {
    XorSeal(9, 0, a);
    XorNothing(a);
  }

  lemma FirstOut(x: nat, p: nat)
    requires x == 0x80000000 && p == BzPoly
    ensures Shift(x) == p
  {
    assert 2 * x % 0x100000000 == 0;
    XorWithZero(p);
  }

  lemma BitShifts(k: nat, x: nat, p: nat)
    requires k < 8 && x > 0 && x * Pow2(7 - k) == 0x80000000 && p == BzPoly
    ensures Crc.Shifted(x, 8) == Crc.Shifted(p, k)
  {
    var top: nat := 0x80000000;
    assert Crc.Shifted(x, 7 - k) == top by { Doubled(x, 7 - k); }
    assert Crc.Shifted(x, 8) == Crc.Shifted(top, k + 1) by { ShiftedAdd(x, 7 - k, k + 1); }
    FirstOut(top, p);
    ShiftIs(top, k + 1);
  }

  lemma TopBit(k: nat)
    requires k < 8
    ensures Pow2(k) * 0x1000000 * Pow2(7 - k) == 0x80000000
  {
    Pow2Add(k, 7 - k);
    assert k + (7 - k) == 7 && Pow2(7) == 128;
    MulCommutes(Pow2(k), 0x1000000);
    TimesAssoc(0x1000000, Pow2(k), Pow2(7 - k));
  }
}
