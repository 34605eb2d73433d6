/** Bit-level arithmetic on unbounded naturals, and strings of bits. */
module Bits {

  function Pow2(n: nat): (r: nat)
    ensures r >= 1
  {
    if n == 0 then 1 else 2 * Pow2(n - 1)
  }

  lemma {:induction false} Pow2Monotone(m: nat, n: nat)
    requires m <= n
    ensures Pow2(m) <= Pow2(n)
  {
    if m < n { Pow2Monotone(m, n - 1); }
  }

  lemma Pow2Table()
    ensures Pow2(8) == 0x100 && Pow2(16) == 0x10000 && Pow2(20) == 0x100000
    ensures Pow2(24) == 0x1000000 && Pow2(32) == 0x100000000
  {
    assert Pow2(4) == 0x10;
    assert Pow2(8) == 0x100;
    assert Pow2(12) == 0x1000;
    assert Pow2(16) == 0x10000;
    assert Pow2(20) == 0x100000;
    assert Pow2(24) == 0x1000000;
    assert Pow2(28) == 0x10000000;
  }

  /** Bitwise inclusive or. */
  function BitOr(a: nat, b: nat): (r: nat)
  {
    if a == 0 && b == 0 then 0
    else (if a % 2 == 1 || b % 2 == 1 then 1 else 0) + 2 * BitOr(a / 2, b / 2)
  }

  /** Bitwise exclusive or. */
  function BitXor(a: nat, b: nat): (r: nat)
  {
    if a == 0 && b == 0 then 0
    else (if a % 2 != b % 2 then 1 else 0) + 2 * BitXor(a / 2, b / 2)
  }

  /** Or of two numbers with no bit in common is their sum: a has only bits from k up, b only
      bits below k. */
  lemma {:induction false} BitOrDisjoint(a: nat, b: nat, k: nat)
    requires b < Pow2(k) && a % Pow2(k) == 0
    ensures BitOr(a, b) == a + b
    decreases k
  {
    if k == 0 {
      BitOrZero(a);
    } else {
      HalfMultiple(a, k);
      BitOrDisjoint(a / 2, b / 2, k - 1);
    }
  }

  lemma {:induction false} BitOrZero(a: nat)
    ensures BitOr(a, 0) == a
  {
    if a > 0 { BitOrZero(a / 2); }
  }

  lemma HalfMultiple(a: nat, k: nat)
    requires k > 0 && a % Pow2(k) == 0
    ensures a % 2 == 0 && (a / 2) % Pow2(k - 1) == 0
  {
    var q, p := a / Pow2(k), Pow2(k - 1);
    assert a == q * (2 * p);
    assert a == 2 * (q * p) by { MulSwap(q, p); }
    ModOfMultiple(q, p);
  }

  lemma MulSwap(q: int, p: int)
    ensures q * (2 * p) == 2 * (q * p)
  {
  }

  lemma ModOfMultiple(q: int, p: int)
    requires p > 0
    ensures (q * p) % p == 0
  {
    var x := q * p;
    var d := x / p - q;
    assert d * p == -(x % p) by { assert x == (x / p) * p + x % p; }
    MultipleAtLeast(d, p);
  }

  lemma MultipleAtLeast(d: int, n: int)
    requires n > 0
    ensures d >= 1 ==> d * n >= n
    ensures d <= -1 ==> d * n <= -n
  {
  }

  lemma TimesAssoc(x: int, y: int, z: int)
    ensures (x * y) * z == x * (y * z)
  {
  }

  lemma TimesBelow(x: int, y: int, z: int)
    requires 0 <= x < y && z > 0
    ensures 0 <= x * z < y * z
  {
  }

  lemma TimesNatural(x: nat, y: nat)
    ensures x * y >= 0
  {
  }

  lemma TimesSum(x: int, y: int, z: int)
    ensures (x + y) * z == x * z + y * z
  {
  }

  lemma MulCommutes(x: int, y: int)
    ensures x * y == y * x
  {
  }

  lemma Distrib(x: int, y: int, z: int)
    ensures (x - y) * z == x * z - y * z
  {
  }

  lemma {:induction false} Pow2Add(m: nat, n: nat)
    ensures Pow2(m + n) == Pow2(m) * Pow2(n)
  {
    if n > 0 {
      Pow2Add(m, n - 1);
      MulSwap(Pow2(m), Pow2(n - 1));
      assert m + n - 1 == m + (n - 1);
    }
  }

  /** The number a string of bits stands for, most significant first. */
  function Value(s: seq<bool>): nat {
    if |s| == 0 then 0 else 2 * Value(s[..|s| - 1]) + (if s[|s| - 1] then 1 else 0)
  }

  /** The low n bits of v, most significant first. */
  function ToBits(v: nat, n: nat): (s: seq<bool>)
    ensures |s| == n
  {
    seq(n, i requires 0 <= i < n => v / Pow2(n - 1 - i) % 2 == 1)
  }

  lemma DivDiv(v: nat, p: nat)
    requires p > 0
    ensures v / (2 * p) == v / 2 / p
  {
    var q := v / 2 / p;
    assert v / 2 == q * p + v / 2 % p;
    assert v == q * (2 * p) + (2 * (v / 2 % p) + v % 2) by { MulSwap(q, p); }
    SplitBits(q, 2 * (v / 2 % p) + v % 2, 2 * p);
  }

  lemma ToBitsLast(v: nat, n: nat)
    requires n > 0
    ensures ToBits(v, n) == ToBits(v / 2, n - 1) + [v % 2 == 1]
  {
    forall i | 0 <= i < n - 1 ensures ToBits(v, n)[i] == ToBits(v / 2, n - 1)[i] {
      DivDiv(v, Pow2(n - 2 - i));
      assert Pow2(n - 1 - i) == 2 * Pow2(n - 2 - i);
    }
    assert Pow2(0) == 1;
  }

  lemma {:induction false} ValueBound(s: seq<bool>)
    ensures Value(s) < Pow2(|s|)
  {
    if |s| > 0 { ValueBound(s[..|s| - 1]); }
  }

  lemma {:induction false} ValueToBits(v: nat, n: nat)
    requires v < Pow2(n)
    ensures Value(ToBits(v, n)) == v
    decreases n
  {
    if n > 0 {
      ValueToBits(v / 2, n - 1);
      ToBitsLast(v, n);
      assert ToBits(v, n)[..n - 1] == ToBits(v / 2, n - 1);
    }
  }

  lemma {:induction false} ToBitsValue(s: seq<bool>)
    ensures ToBits(Value(s), |s|) == s
  {
    if |s| > 0 {
      ToBitsValue(s[..|s| - 1]);
      ToBitsLast(Value(s), |s|);
      assert s == s[..|s| - 1] + [s[|s| - 1]];
    }
  }

  lemma {:induction false} ValueConcat(s: seq<bool>, t: seq<bool>)
    ensures Value(s + t) == Value(s) * Pow2(|t|) + Value(t)
  {
    if |t| == 0 {
      assert s + t == s;
    } else {
      var a := t[..|t| - 1];
      ValueConcat(s, a);
      assert (s + t)[..|s + t| - 1] == s + a;
      MulSwap(Value(s), Pow2(|a|));
    }
  }

  /** Splitting a number into high and low bits. */
  lemma SplitBits(q: nat, r: nat, p: nat)
    requires p > 0 && r < p
    ensures (q * p + r) / p == q && (q * p + r) % p == r
  {
    var x := q * p + r;
    assert x == (x / p) * p + x % p;
    var d := q - x / p;
    assert d * p == x % p - r;
    MultipleAtLeast(d, p);
  }

  // ---- Strings of bits with the lowest first ----

  function Falses(n: nat): (s: seq<bool>)
    ensures |s| == n && forall i :: 0 <= i < n ==> !s[i]
  {
    seq(n, _ => false)
  }

  /** The number with these bits, the lowest first. */
  function Number(b: seq<bool>): nat {
    if |b| == 0 then 0 else (if b[0] then 1 else 0) + 2 * Number(b[1..])
  }

  function BitsOf(n: nat, k: nat): (b: seq<bool>)
    ensures |b| == k
    decreases k
  {
    if k == 0 then [] else [n % 2 == 1] + BitsOf(n / 2, k - 1)
  }

  lemma {:induction false} BitsOfNumber(b: seq<bool>)
    ensures BitsOf(Number(b), |b|) == b && Number(b) < Pow2(|b|)
  {
    if |b| > 0 { BitsOfNumber(b[1..]); }
  }

  lemma {:induction false} NumberOfBits(n: nat, k: nat)
    requires n < Pow2(k)
    ensures Number(BitsOf(n, k)) == n
    decreases k
  {
    if k > 0 {
      NumberOfBits(n / 2, k - 1);
      assert BitsOf(n, k)[1..] == BitsOf(n / 2, k - 1);
    }
  }

  /** The bits of a byte, the lowest first; the count k only keeps the verifier from working them out. */
  function ByteLow(k: nat, c: nat): (b: seq<bool>)
    ensures |b| == 8
    decreases k, c
  {
    if k == 0 then BitsOf(c, 8) else ByteLow(k - 1, c)
  }

  lemma {:induction false} ByteLowIs(k: nat, c: nat)
    ensures ByteLow(k, c) == BitsOf(c, 8)
    decreases k
  {
    if k > 0 { ByteLowIs(k - 1, c); }
  }

  lemma ByteLowNumber(c: nat)
    requires c < 256
    ensures Number(ByteLow(9, c)) == c
  {
    var k: nat := 8;
    assert Pow2(k) == 256 by { Pow2Table(); }
    ByteLowIs(9, c);
    NumberOfBits(c, k);
  }
}
