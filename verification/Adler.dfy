/** The Adler-32 checksum of zlib (adler32.c): sums reduced once in many bytes, the combination
    of two checksums, and reduction without division. */
module Adler {
  import opened Sequences

  const Base: int := 65521
  const Nmax: nat := 5552

  /** The two sums of section 8.2 of RFC 1950, reduced at every byte. */
  datatype Sums = Sums(a: int, b: int)

  function Next(s: Sums, c: Byte): Sums {
    var a := (s.a + c) % Base;
    Sums(a, (s.b + a) % Base)
  }

  function Checksum(s: Sums, buf: seq<Byte>): Sums {
    if |buf| == 0 then s else Next(Checksum(s, buf[..|buf| - 1]), buf[|buf| - 1])
  }

  ghost predicate Reduced(s: Sums) { 0 <= s.a < Base && 0 <= s.b < Base }

  lemma {:induction false} ChecksumReduced(s: Sums, buf: seq<Byte>)
    requires Reduced(s)
    ensures Reduced(Checksum(s, buf))
  {
    if |buf| > 0 { ChecksumReduced(s, buf[..|buf| - 1]); }
  }

  lemma {:induction false} ChecksumConcat(s: Sums, x: seq<Byte>, y: seq<Byte>)
    ensures Checksum(s, x + y) == Checksum(Checksum(s, x), y)
  {
    if |y| == 0 {
      assert x + y == x;
    } else {
      ChecksumConcat(s, x, y[..|y| - 1]);
      assert (x + y)[..|x + y| - 1] == x + y[..|y| - 1];
    }
  }

  // ---- Sums left unreduced ----

  function Raw(s: Sums, buf: seq<Byte>): Sums {
    if |buf| == 0 then s
    else
      var r := Raw(s, buf[..|buf| - 1]);
      var a := r.a + buf[|buf| - 1];
      Sums(a, r.b + a)
  }

  lemma {:induction false} RawConcat(s: Sums, x: seq<Byte>, y: seq<Byte>)
    ensures Raw(s, x + y) == Raw(Raw(s, x), y)
  {
    if |y| == 0 {
      assert x + y == x;
    } else {
      RawConcat(s, x, y[..|y| - 1]);
      assert (x + y)[..|x + y| - 1] == x + y[..|y| - 1];
    }
  }

  lemma {:induction false} RawReduces(s: Sums, buf: seq<Byte>)
    requires Reduced(s)
    ensures Checksum(s, buf) == Sums(Raw(s, buf).a % Base, Raw(s, buf).b % Base)
  {
    if |buf| > 0 {
      var t, c := buf[..|buf| - 1], buf[|buf| - 1];
      RawReduces(s, t);
      var r := Raw(s, t);
      ModAdd(r.a, c);
      ModAdd2(r.b, r.a + c);
    }
  }

  lemma ModAdd(x: int, y: int)
    ensures (x % Base + y) % Base == (x + y) % Base
  {
    SameRest(x % Base + y, x + y, x / Base);
  }

  lemma ModAdd2(x: int, y: int)
    ensures (x % Base + y % Base) % Base == (x + y) % Base
  {
    ModAdd(x, y % Base);
    ModAdd(y, x);
  }

  lemma SameRest(x: int, y: int, k: int)
    requires y == x + k * Base
    ensures x % Base == y % Base
  {
    var d := y / Base - x / Base - k;
    assert d * Base == x % Base - y % Base;
  }

  /** How large the sums of n bytes can get. */
  function LimitA(n: nat): int { Base - 1 + 255 * n }
  function LimitB(n: nat): int { if n == 0 then Base - 1 else LimitB(n - 1) + LimitA(n) }

  lemma {:induction false} RawBound(s: Sums, buf: seq<Byte>)
    requires Reduced(s)
    ensures 0 <= Raw(s, buf).a <= LimitA(|buf|) && 0 <= Raw(s, buf).b <= LimitB(|buf|)
  {
    if |buf| > 0 { RawBound(s, buf[..|buf| - 1]); }
  }

  lemma {:induction false} LimitClosed(n: nat)
    ensures 2 * LimitB(n) == 2 * (n + 1) * (Base - 1) + 255 * n * (n + 1)
  {
    if n > 0 { LimitClosed(n - 1); }
  }

  lemma {:induction false} LimitMonotone(m: nat, n: nat)
    requires m <= n
    ensures LimitB(m) <= LimitB(n)
  {
    if m < n { LimitMonotone(m, n - 1); }
  }

  /** The sums of NMAX bytes fit in 32 bits, and NMAX is the largest such number. */
  lemma NmaxFits()
    ensures LimitB(Nmax) <= 0xffffffff < LimitB(Nmax + 1)
  {
    LimitClosed(Nmax);
    LimitClosed(Nmax + 1);
  }

  function Add32(x: int, y: int): int { (x + y) % 0x100000000 }

  /** Adds up to NMAX bytes: the 32-bit sums never wrap. */
  method AddBytes(s: Sums, buf: seq<Byte>) returns (r: Sums)
    requires Reduced(s) && |buf| <= Nmax
    ensures r == Raw(s, buf)
  {
    r := s;
    for i := 0 to |buf|
      invariant r == Raw(s, buf[..i])
    {
      NoWrap(s, buf, i);
      var a := Add32(r.a, buf[i]);
      r := Sums(a, Add32(r.b, a));
    }
    assert buf[..|buf|] == buf;
  }

  lemma NoWrap(s: Sums, buf: seq<Byte>, i: nat)
    requires Reduced(s) && i < |buf| <= Nmax
    ensures var r := Raw(s, buf[..i]); var r' := Raw(s, buf[..i + 1]);
      r' == Sums(r.a + buf[i], r.b + (r.a + buf[i])) && 0 <= r'.a <= 0xffffffff && 0 <= r'.b <= 0xffffffff
  {
    assert buf[..i + 1][..i] == buf[..i];
    RawBound(s, buf[..i + 1]);
    LimitMonotone(i + 1, Nmax);
    NmaxFits();
  }

  // ---- Reduction without division ----

  /** CHOP: 65536 is 15 more than BASE. */
  function Chop(a: nat): nat { a % 65536 + 15 * (a / 65536) }

  function Mod28(a: nat): nat {
    var c := Chop(a);
    if c >= Base then c - Base else c
  }

  function Mod32(a: nat): nat { Mod28(Chop(a)) }

  /** MOD63, as its shifts write it: 2 to the power 32 is 225 more than a multiple of BASE. */
  function Mod63(a: nat): nat {
    var tmp := a / 0x100000000;
    Mod28(Chop(a % 0x100000000 + (tmp * 256 - tmp * 32 + tmp)))
  }

  lemma ChopKeeps(a: nat)
    ensures Chop(a) % Base == a % Base
  {
    SameRest(Chop(a), a, a / 65536);
  }

  lemma Mod28Is(a: nat)
    requires a < 0x10000000
    ensures Mod28(a) == a % Base
  {
    ChopKeeps(a);
    var c := Chop(a);
    assert c < 2 * Base;
    if c >= Base { SameRest(c - Base, c, 1); }
  }

  lemma Mod32Is(a: nat)
    requires a < 0x100000000
    ensures Mod32(a) == a % Base
  {
    ChopKeeps(a);
    Mod28Is(Chop(a));
  }

  lemma Mod63Is(a: nat)
    requires a < 0x8000000000000000
    ensures Mod63(a) == a % Base
  {
    var tmp := a / 0x100000000;
    var x := a % 0x100000000 + 225 * tmp;
    assert 0x100000000 == 65551 * Base + 225;
    SameRest(x, a, 65551 * tmp);
    ChopKeeps(x);
    Mod28Is(Chop(x));
  }

  // ---- adler32 ----

  function Pack(s: Sums): int { s.a + 65536 * s.b }
  function Unpack(adler: int): Sums { Sums(adler % 65536, adler / 65536 % 65536) }

  /** The sum of the bytes. */
  function Plain(buf: seq<Byte>): int {
    if |buf| == 0 then 0 else buf[0] + Plain(buf[1..])
  }

  /** The sum of the bytes, the first counted as often as there are bytes and the last once. */
  function Weighted(buf: seq<Byte>): int {
    if |buf| == 0 then 0 else |buf| * buf[0] + Weighted(buf[1..])
  }

  lemma {:induction false} OneMoreByte(buf: seq<Byte>, c: Byte)
    ensures Plain(buf + [c]) == Plain(buf) + c
    ensures Weighted(buf + [c]) == Weighted(buf) + Plain(buf) + c
  {
    if |buf| == 0 {
      assert buf + [c] == [c] && [c][1..] == [];
    } else {
      OneMoreByte(buf[1..], c);
      assert (buf + [c])[1..] == buf[1..] + [c];
    }
  }

  lemma {:induction false} RawIsWeighted(buf: seq<Byte>)
    ensures Raw(Sums(1, 0), buf) == Sums(1 + Plain(buf), |buf| + Weighted(buf))
  {
    if |buf| > 0 {
      var n := |buf| - 1;
      RawIsWeighted(buf[..n]);
      OneMoreByte(buf[..n], buf[n]);
      assert buf[..n] + [buf[n]] == buf;
    }
  }

  /** The checksum as section 8.2 of RFC 1950 writes it out: the weighted sum in the upper half, the
      plain one in the lower. */
  lemma PackedIs(buf: seq<Byte>)
    ensures Pack(Checksum(Sums(1, 0), buf)) == (|buf| + Weighted(buf)) % Base * 65536 + (1 + Plain(buf)) % Base
  {
    RawIsWeighted(buf);
    RawReduces(Sums(1, 0), buf);
  }

  /** The checksum of no bytes is 1, that of the bytes of "abc" 0x024d0127. */
  lemma PackedValues(buf: seq<Byte>)
    ensures |buf| == 0 ==> Pack(Checksum(Sums(1, 0), buf)) == 1
    ensures |buf| == 3 && buf[0] == 0x61 && buf[1] == 0x62 && buf[2] == 0x63 ==> Pack(Checksum(Sums(1, 0), buf)) == 0x024d0127
  {
    PackedIs(buf);
    if |buf| == 3 { ThreeBytes(buf, buf[0], buf[1], buf[2]); }
  }

  lemma ThreeBytes(buf: seq<Byte>, x: int, y: int, z: int)
    requires |buf| == 3 && buf[0] == x && buf[1] == y && buf[2] == z
    ensures Plain(buf) == x + y + z && Weighted(buf) == 3 * x + 2 * y + z
  {
    var t := buf[1..];
    var u := t[1..];
    assert u[1..] == [];
    assert Plain(u) == z && Weighted(u) == z;
    assert Plain(t) == y + z && Weighted(t) == 2 * y + z;
  }

  lemma UnpackPack(s: Sums)
    requires Reduced(s)
    ensures Unpack(Pack(s)) == s
  {
  }

  /** Blocks of NMAX bytes, each reduced once. */
  method BigBlocks(s: Sums, buf: seq<Byte>) returns (r: Sums, done: nat)
    requires Reduced(s)
    ensures done <= |buf| < done + Nmax && r == Checksum(s, buf[..done]) && Reduced(r)
  {
    r, done := s, 0;
    assert buf[..0] == [];
    while |buf| - done >= Nmax
      invariant done <= |buf| && r == Checksum(s, buf[..done]) && Reduced(r)
    {
      var block := buf[done..done + Nmax];
      RawReduces(r, block);
      ChecksumConcat(s, buf[..done], block);
      assert buf[..done] + block == buf[..done + Nmax];
      var raw := AddBytes(r, block);
      r := Sums(raw.a % Base, raw.b % Base);
      done := done + Nmax;
    }
  }

  /** adler32 of bytes in a buffer, continuing a checksum: every length path computes the sums
      reduced at every byte. */
  method Adler32(adler: int, buf: seq<Byte>) returns (r: int)
    requires Reduced(Unpack(adler)) && 0 <= adler <= 0xffffffff
    ensures r == Pack(Checksum(Unpack(adler), buf))
  {
    var s := Unpack(adler);
    if |buf| == 1 {
      r := Pack(One(s, buf[0]));
      OneIs(s, buf);
      return;
    }
    if |buf| < 16 {
      var t := Short(s, buf);
      return Pack(t);
    }
    var t, done := BigBlocks(s, buf);
    if done < |buf| {
      var rest := buf[done..];
      RawReduces(t, rest);
      ChecksumConcat(s, buf[..done], rest);
      assert buf[..done] + rest == buf;
      var raw := AddBytes(t, rest);
      t := Sums(raw.a % Base, raw.b % Base);
    } else {
      assert buf[..done] == buf;
    }
    r := Pack(t);
  }

  /** A few bytes, reduced by a comparison and by MOD28. */
  method Short(s: Sums, buf: seq<Byte>) returns (r: Sums)
    requires Reduced(s) && |buf| < 16
    ensures r == Checksum(s, buf)
  {
    var raw := AddBytes(s, buf);
    RawReduces(s, buf);
    ShortBound(s, buf);
    Mod28Is(raw.b);
    UnderThree(raw.a);
    r := Sums(if raw.a >= Base then raw.a - Base else raw.a, Mod28(raw.b));
  }

  /** A single byte, with comparisons for reductions. */
  function One(s: Sums, c: Byte): Sums {
    var a := if s.a + c >= Base then s.a + c - Base else s.a + c;
    Sums(a, if s.b + a >= Base then s.b + a - Base else s.b + a)
  }

  lemma OneIs(s: Sums, buf: seq<Byte>)
    requires Reduced(s) && |buf| == 1
    ensures One(s, buf[0]) == Checksum(s, buf)
  {
    assert buf[..0] == [];
    assert Checksum(s, buf) == Next(s, buf[0]);
  }

  lemma ShortBound(s: Sums, buf: seq<Byte>)
    requires Reduced(s) && |buf| < 16
    ensures 0 <= Raw(s, buf).a < 2 * Base && 0 <= Raw(s, buf).b < 0x10000000
  {
    RawBound(s, buf);
    LimitMonotone(|buf|, 16);
    LimitClosed(16);
  }

  // ---- adler32_combine_ ----

  ghost predicate Same(x: int, y: int) { x % Base == y % Base }

  /** x and y are the sums of the same n bytes from s and from the usual start; p is n times s.a. */
  ghost predicate Shifted(s: Sums, x: Sums, y: Sums, n: nat, p: int) {
    forall u {:trigger UnfoldShift(u)} :: UnfoldShift(u) ==> Same(x.a, s.a + y.a - 1) && Same(x.b, s.b + p + y.b - n)
  }

  /** Shifted stays folded for the verifier until UnfoldShift is mentioned. */
  ghost predicate UnfoldShift(u: int) { true }

  lemma ShiftStart(s: Sums)
    ensures Shifted(s, s, Sums(1, 0), 0, 0)
  {
  }

  /** The sums of bytes from any start, from those from the usual start. */
  lemma {:induction false} ChecksumShift(s: Sums, buf: seq<Byte>)
    requires Reduced(s)
    ensures Shifted(s, Checksum(s, buf), Checksum(Sums(1, 0), buf), |buf|, |buf| * s.a)
  {
    if |buf| == 0 {
      ShiftStart(s);
    } else {
      var t, c, n := buf[..|buf| - 1], buf[|buf| - 1], |buf| - 1;
      ChecksumShift(s, t);
      var x, y := Checksum(s, t), Checksum(Sums(1, 0), t);
      ShiftStep(s, x, y, n, n * s.a, c);
      assert |buf| * s.a == n * s.a + s.a;
    }
  }

  lemma ShiftStep(s: Sums, x: Sums, y: Sums, n: nat, p: int, c: Byte)
    requires Shifted(s, x, y, n, p)
    ensures Shifted(s, Next(x, c), Next(y, c), n + 1, p + s.a)
  {
    assert UnfoldShift(0);
    var x1, y1 := x.a + c, y.a + c;
    SameAdd(x.a, s.a + y.a - 1, c, c);
    ModAdd(y1, s.a - 1);
    assert Same(x1, s.a + y1 - 1);
    ModAdd(x1, x.b);
    ModAdd(y1, y.b);
    SameAdd(x1, s.a + y1 - 1, x.b, s.b + p + y.b - n);
    ModAdd(y.b + y1, s.b + (p + s.a) - (n + 1));
  }

  lemma SameAdd(x: int, y: int, u: int, v: int)
    requires Same(x, y) && Same(u, v)
    ensures Same(x + u, y + v)
  {
    ModAdd2(x, u);
    ModAdd2(y, v);
  }

  /** adler32_combine_: a negative length gives an invalid checksum. */
  method AdlerCombine(adler1: int, adler2: int, len2: int) returns (r: int)
    requires 0 <= adler1 <= 0xffffffff && 0 <= adler2 <= 0xffffffff && len2 < 0x8000000000000000
    requires Reduced(Unpack(adler1)) && Reduced(Unpack(adler2))
    ensures len2 < 0 ==> r == 0xffffffff
    ensures len2 >= 0 ==> r == Pack(Combined(Unpack(adler1), Unpack(adler2), len2))
  {
    if len2 < 0 {
      return 0xffffffff;
    }
    var rem := len2 % Base;
    var s, t := Unpack(adler1), Unpack(adler2);
    var sum1, sum2 := s.a, rem * s.a % Base;
    sum1 := sum1 + t.a + Base - 1;
    sum2 := sum2 + s.b + t.b + Base - rem;
    CombineNumbers(s, t, len2, sum1, sum2);
    UnderThree(sum1);
    UnderFour(sum2);
    r := Pack(Sums(Twice(sum1), Down(sum2)));
  }

  /** Two comparisons. */
  function Twice(x: int): int {
    var y := if x >= Base then x - Base else x;
    if y >= Base then y - Base else y
  }

  /** A comparison with twice BASE, and one with BASE. */
  function Down(x: int): int {
    var y := if x >= 2 * Base then x - 2 * Base else x;
    if y >= Base then y - Base else y
  }

  lemma UnderThree(x: int)
    requires 0 <= x < 3 * Base
    ensures Twice(x) == x % Base
  {
    SameRest(Twice(x), x, (x - Twice(x)) / Base);
  }

  lemma UnderFour(x: int)
    requires 0 <= x < 4 * Base
    ensures Down(x) == x % Base
  {
    SameRest(Down(x), x, (x - Down(x)) / Base);
  }

  /** The sums of one string after another, from their own sums. */
  function Combined(s: Sums, t: Sums, n: nat): Sums {
    Sums((s.a + t.a - 1) % Base, (s.b + n * s.a + t.b - n) % Base)
  }

  lemma CombineNumbers(s: Sums, t: Sums, n: nat, sum1: int, sum2: int)
    requires Reduced(s) && Reduced(t)
    requires sum1 == s.a + t.a + Base - 1 && sum2 == (n % Base) * s.a % Base + s.b + t.b + Base - n % Base
    ensures 0 <= sum1 < 3 * Base && sum1 % Base == Combined(s, t, n).a
    ensures 0 <= sum2 < 4 * Base && sum2 % Base == Combined(s, t, n).b
  {
    SameRest(s.a + t.a - 1, sum1, 1);
    var rem, q := n % Base, n / Base;
    var p := rem * s.a;
    assert n * s.a == p + (q * s.a) * Base by { assert n == q * Base + rem; }
    SameRest(p, n * s.a, q * s.a);
    ModAdd(p, s.b + t.b + Base - rem);
    ModAdd(n * s.a, s.b + t.b + Base - rem);
    SameRest(n * s.a + s.b + t.b - n, n * s.a + s.b + t.b + Base - rem, 1 + q);
  }

  /** The combination of the checksums of two strings is the checksum of the one after the other. */
  lemma CombinedIsConcat(x: seq<Byte>, y: seq<Byte>)
    ensures Combined(Checksum(Sums(1, 0), x), Checksum(Sums(1, 0), y), |y|) == Checksum(Sums(1, 0), x + y)
  {
    var s := Checksum(Sums(1, 0), x);
    ChecksumReduced(Sums(1, 0), x);
    ChecksumConcat(Sums(1, 0), x, y);
    ChecksumShift(s, y);
    ChecksumReduced(s, y);
    var z := Checksum(Sums(1, 0), y);
    var n := |y|;
    assert UnfoldShift(0);
    FromSame(Checksum(s, y).a, s.a + z.a - 1);
    FromSame(Checksum(s, y).b, s.b + n * s.a + z.b - n);
  }

  /** For checksums of strings, adler32_combine_ returns the checksum of the concatenation. */
  method CombineChecksums(x: seq<Byte>, y: seq<Byte>) returns (r: int)
    requires |y| < 0x8000000000000000
    ensures r == Pack(Checksum(Sums(1, 0), x + y))
  {
    var s, t := Checksum(Sums(1, 0), x), Checksum(Sums(1, 0), y);
    ChecksumReduced(Sums(1, 0), x);
    ChecksumReduced(Sums(1, 0), y);
    UnpackPack(s);
    UnpackPack(t);
    r := AdlerCombine(Pack(s), Pack(t), |y|);
    CombinedIsConcat(x, y);
  }

  lemma FromSame(v: int, w: int)
    requires 0 <= v < Base && Same(v, w)
    ensures v == w % Base
  {
  }
}
