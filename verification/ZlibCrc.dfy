/** The CRC-32 of zlib (crc32.c): a register shifted right over GF(2), its tables, the loop by
    words of four bytes, and the combination of two checksums by squaring matrices. A word is its
    32 bits, the lowest first; a byte its 8 bits. */
module ZlibCrc {
  import opened Bits

  type Word = w: seq<bool> | |w| == 32 witness Falses(32)
  type Octet = b: seq<bool> | |b| == 8 witness Falses(8)

  function Zero(): Word { Falses(32) }

  function Ones(): (w: Word)
    ensures forall i :: 0 <= i < 32 ==> w[i]
  {
    seq(32, i => true)
  }

  function Xor(a: Word, b: Word): (r: Word)
    ensures forall i :: 0 <= i < 32 ==> r[i] == (a[i] != b[i])
  {
    seq(32, i requires 0 <= i < 32 => a[i] != b[i])
  }

  lemma XorZero(a: Word)
    ensures Xor(a, Zero()) == a && Xor(Zero(), a) == a
  {
  }

  lemma XorSwap(a: Word, b: Word, c: Word, d: Word)
    ensures Xor(Xor(a, b), Xor(c, d)) == Xor(Xor(a, c), Xor(b, d))
  {
  }

  lemma XorAssoc(a: Word, b: Word, c: Word)
    ensures Xor(Xor(a, b), c) == Xor(a, Xor(b, c))
  {
  }

  function Shr(c: Word, n: nat): (r: Word)
    requires n <= 32
    ensures forall i :: 0 <= i < 32 ==> r[i] == (i + n < 32 && c[i + n])
  {
    c[n..] + Falses(n)
  }

  /** x^32 modulo the polynomial: its terms, the lowest power in the highest bit. */
  function Terms(): seq<int> { [0, 1, 2, 4, 5, 7, 8, 10, 11, 12, 16, 22, 23, 26] }
  function Poly(): Word { seq(32, i => 31 - i in Terms()) }

  /** One zero bit through the register. */
  function Step(c: Word): Word {
    if c[0] then Xor(Poly(), Shr(c, 1)) else Shr(c, 1)
  }

  /** n zero bits through the register. */
  function Zeros(c: Word, n: nat): Word
    decreases n, |c|
  {
    if n == 0 then c else Step(Zeros(c, n - 1))
  }

  lemma StepLinear(a: Word, b: Word)
    ensures Step(Xor(a, b)) == Xor(Step(a), Step(b))
  {
    assert Shr(Xor(a, b), 1) == Xor(Shr(a, 1), Shr(b, 1));
  }

  lemma {:induction false} ZerosLinear(a: Word, b: Word, n: nat)
    ensures Zeros(Xor(a, b), n) == Xor(Zeros(a, n), Zeros(b, n))
  {
    if n > 0 {
      ZerosLinear(a, b, n - 1);
      StepLinear(Zeros(a, n - 1), Zeros(b, n - 1));
    }
  }

  lemma {:induction false} ZerosAdd(c: Word, m: nat, n: nat)
    ensures Zeros(c, m + n) == Zeros(Zeros(c, m), n)
  {
    if n > 0 {
      ZerosAdd(c, m, n - 1);
      var k := m + (n - 1);
      assert Zeros(c, k + 1) == Step(Zeros(c, k));
    } else {
      assert m + n == m;
    }
  }

  /** Bits that are clear fall out without a trace. */
  lemma {:induction false} ZerosShift(c: Word, n: nat)
    requires n <= 32 && forall i :: 0 <= i < n ==> !c[i]
    ensures Zeros(c, n) == Shr(c, n)
  {
    if n > 0 {
      ZerosShift(c, n - 1);
      assert Shr(Shr(c, n - 1), 1) == Shr(c, n);
    } else {
      assert Shr(c, 0) == c;
    }
  }

  /** The byte at byte position k of a word. */
  function Placed(b: Octet, k: nat): (w: Word)
    requires k < 4
    ensures forall i :: 0 <= i < 32 ==> w[i] == (8 * k <= i < 8 * k + 8 && b[i - 8 * k])
  {
    Falses(8 * k) + b + Falses(24 - 8 * k)
  }

  lemma PlacedShift(b: Octet, k: nat)
    requires k < 4
    ensures Zeros(Placed(b, k), 8 * k) == Placed(b, 0)
  {
    ZerosShift(Placed(b, k), 8 * k);
    assert Shr(Placed(b, k), 8 * k) == Placed(b, 0);
  }

  /** The register after a byte, and after a string of bytes. */
  function Update(c: Word, b: Octet): Word { Zeros(Xor(c, Placed(b, 0)), 8) }

  function Register(c: Word, s: seq<Octet>): Word {
    if |s| == 0 then c else Update(Register(c, s[..|s| - 1]), s[|s| - 1])
  }

  function Not(c: Word): Word { Xor(c, Ones()) }

  /** The checksum of section 8 of RFC 1952, continued from an earlier one. */
  function Crc(crc: Word, s: seq<Octet>): Word { Not(Register(Not(crc), s)) }

  lemma {:induction false} RegisterConcat(c: Word, s: seq<Octet>, t: seq<Octet>)
    ensures Register(c, s + t) == Register(Register(c, s), t)
  {
    if |t| == 0 {
      assert s + t == s;
    } else {
      RegisterConcat(c, s, t[..|t| - 1]);
      assert (s + t)[..|s + t| - 1] == s + t[..|t| - 1];
    }
  }

  // ---- Combination: what it means ----

  /** The register is linear in its start. */
  lemma {:induction false} RegisterSplits(a: Word, b: Word, s: seq<Octet>)
    ensures Register(Xor(a, b), s) == Xor(Zeros(a, 8 * |s|), Register(b, s))
  {
    if |s| > 0 {
      var t, z := s[..|s| - 1], s[|s| - 1];
      RegisterSplits(a, b, t);
      var x, y, p := Zeros(a, 8 * |t|), Register(b, t), Placed(z, 0);
      XorAssoc(x, y, p);
      ZerosLinear(x, Xor(y, p), 8);
      ZerosAdd(a, 8 * |t|, 8);
    }
  }

  /** What crc32_combine is to return. */
  function Combine(crc1: Word, crc2: Word, len2: nat): Word { Xor(Zeros(crc1, 8 * len2), crc2) }

  /** The combination of the checksums of two strings is the checksum of the one after the other. */
  lemma CombineIsConcat(s: seq<Octet>, t: seq<Octet>)
    ensures Combine(Crc(Zero(), s), Crc(Zero(), t), |t|) == Crc(Zero(), s + t)
  {
    var a := Register(Not(Zero()), s);
    RegisterConcat(Not(Zero()), s, t);
    assert Not(Zero()) == Ones();
    assert a == Xor(Not(a), Ones());
    RegisterSplits(Not(a), Ones(), t);
    XorAssoc(Zeros(Not(a), 8 * |t|), Register(Ones(), t), Ones());
  }

  // ---- Matrices over GF(2) ----

  /** The product of a matrix, given by its columns, with a vector. */
  function Times(mat: seq<Word>, vec: seq<bool>): Word
    requires |vec| <= |mat|
  {
    if |vec| == 0 then Zero()
    else Xor(if vec[0] then mat[0] else Zero(), Times(mat[1..], vec[1..]))
  }

  function XorBits(a: seq<bool>, b: seq<bool>): (r: seq<bool>)
    requires |a| == |b|
    ensures |r| == |a| && forall i :: 0 <= i < |a| ==> r[i] == (a[i] != b[i])
  {
    seq(|a|, i requires 0 <= i < |a| => a[i] != b[i])
  }

  lemma {:induction false} TimesLinear(mat: seq<Word>, a: seq<bool>, b: seq<bool>)
    requires |a| == |b| <= |mat|
    ensures Times(mat, XorBits(a, b)) == Xor(Times(mat, a), Times(mat, b))
    decreases |a|
  {
    if |a| == 0 {
      XorZero(Zero());
    } else {
      var c := XorBits(a, b);
      assert c[1..] == XorBits(a[1..], b[1..]);
      TimesLinear(mat[1..], a[1..], b[1..]);
      var x, y := if a[0] then mat[0] else Zero(), if b[0] then mat[0] else Zero();
      assert (if c[0] then mat[0] else Zero()) == Xor(x, y);
      XorSwap(x, y, Times(mat[1..], a[1..]), Times(mat[1..], b[1..]));
    }
  }

  lemma {:induction false} TimesNothing(mat: seq<Word>, vec: seq<bool>)
    requires |vec| <= |mat| && forall i :: 0 <= i < |vec| ==> !vec[i]
    ensures Times(mat, vec) == Zero()
    decreases |vec|
  {
    if |vec| > 0 {
      TimesNothing(mat[1..], vec[1..]);
      XorZero(Zero());
    }
  }

  /** The columns of the product of a matrix with one made of some of its images. */
  ghost predicate Squared(square: seq<Word>, mat: seq<Word>, from: seq<Word>) {
    |square| == |from| && |mat| == 32 && forall n :: 0 <= n < |from| ==> square[n] == Times(mat, from[n])
  }

  lemma {:induction false} SquareTimes(square: seq<Word>, mat: seq<Word>, from: seq<Word>, vec: seq<bool>)
    requires Squared(square, mat, from) && |vec| <= |from|
    ensures Times(square, vec) == Times(mat, Times(from, vec))
    decreases |vec|
  {
    if |vec| == 0 {
      TimesNothing(mat, Zero());
    } else {
      SquareTimes(square[1..], mat, from[1..], vec[1..]);
      var x, y := if vec[0] then from[0] else Zero(), Times(from[1..], vec[1..]);
      TimesNothing(mat, Zero());
      assert Times(mat, x) == if vec[0] then square[0] else Zero();
      assert XorBits(x, y) == Xor(x, y);
      TimesLinear(mat, x, y);
    }
  }

  /** The matrix lets n zero bits through the register. */
  ghost predicate Passes(mat: seq<Word>, n: nat) {
    |mat| == 32 && forall v: Word :: PassesOn(mat, n, v)
  }

  ghost predicate PassesOn(mat: seq<Word>, n: nat, v: Word)
    requires |mat| == 32
  {
    Times(mat, v) == Zeros(v, n)
  }

  lemma SquarePasses(square: seq<Word>, mat: seq<Word>, n: nat)
    requires Passes(mat, n) && Squared(square, mat, mat)
    ensures Passes(square, 2 * n)
  {
    var m := 2 * n;
    forall v: Word ensures PassesOn(square, m, v) {
      SquareTimes(square, mat, mat, v);
      var w := Zeros(v, n);
      assert PassesOn(mat, n, v) && PassesOn(mat, n, w);
      ZerosAdd(v, n, n);
    }
  }

  /** The word with bit n set. */
  function Unit(n: nat): (w: Word)
    requires n < 32
    ensures forall i :: 0 <= i < 32 ==> w[i] == (i == n)
  {
    seq(32, i => i == n)
  }

  /** The columns that shift right by one. */
  ghost predicate OneBit(mat: seq<Word>) {
    |mat| == 32 && mat[0] == Poly() && forall n :: 1 <= n < 32 ==> mat[n] == Unit(n - 1)
  }

  /** The bits of w from k on are those of vec, and the others clear. */
  ghost predicate Collects(w: Word, vec: seq<bool>, k: nat) {
    forall i {:trigger w[i]} :: 0 <= i < 32 ==> w[i] == if k <= i < k + |vec| then vec[i - k] else false
  }

  lemma {:induction false} UnitsCollect(mat: seq<Word>, vec: seq<bool>, k: nat)
    requires |vec| == |mat| && k + |mat| <= 32 && forall n :: 0 <= n < |mat| ==> mat[n] == Unit(k + n)
    ensures Collects(Times(mat, vec), vec, k)
    decreases |vec|
  {
    if |vec| > 0 {
      var m, v := mat[1..], vec[1..];
      forall n | 0 <= n < |m| ensures m[n] == Unit(k + 1 + n) {
        assert m[n] == mat[n + 1];
      }
      UnitsCollect(m, v, k + 1);
      assert mat[0] == Unit(k + 0);
      CollectOne(Times(m, v), vec, k);
    }
  }

  lemma CollectOne(rest: Word, vec: seq<bool>, k: nat)
    requires |vec| > 0 && k < 32 && Collects(rest, vec[1..], k + 1)
    ensures Collects(Xor(if vec[0] then Unit(k) else Zero(), rest), vec, k)
  {
    var w := Xor(if vec[0] then Unit(k) else Zero(), rest);
    forall i | 0 <= i < 32 ensures w[i] == if k <= i < k + |vec| then vec[i - k] else false {
      assert rest[i] == if k + 1 <= i < k + 1 + |vec[1..]| then vec[1..][i - (k + 1)] else false;
    }
  }

  lemma OneBitPasses(mat: seq<Word>)
    requires OneBit(mat)
    ensures Passes(mat, 1)
  {
    var one: nat := 1;
    forall v: Word ensures PassesOn(mat, one, v) {
      UnitsCollect(mat[1..], v[1..], 0);
      assert Times(mat[1..], v[1..]) == Shr(v, 1);
      XorZero(Shr(v, 1));
      assert Zeros(v, 0) == v;
    }
  }

  /** gf2_matrix_times. */
  method MatrixTimes(mat: seq<Word>, vec: Word) returns (sum: Word)
    requires |mat| == 32
    ensures sum == Times(mat, vec)
  {
    sum := Zero();
    var i := 0;
    XorZero(Times(mat, vec));
    assert mat[0..] == mat && vec[0..] == vec;
    while i < 32 && vec[i..] != Falses(32 - i)
      invariant 0 <= i <= 32 && Xor(sum, Times(mat[i..], vec[i..])) == Times(mat, vec)
    {
      XorAssoc(sum, if vec[i] then mat[i] else Zero(), Times(mat[i + 1..], vec[i + 1..]));
      XorZero(sum);
      assert mat[i..][1..] == mat[i + 1..] && vec[i..][1..] == vec[i + 1..];
      if vec[i] { sum := Xor(sum, mat[i]); }
      i := i + 1;
    }
    assert vec[i..] == Falses(32 - i);
    TimesNothing(mat[i..], vec[i..]);
    XorZero(sum);
  }

  ghost predicate SquaredAt(column: Word, m: seq<Word>, k: int) { |m| == 32 && 0 <= k < 32 && column == Times(m, m[k]) }

  /** gf2_matrix_square. */
  method MatrixSquare(square: array<Word>, mat: array<Word>)
    requires square != mat && square.Length == mat.Length == 32
    modifies square
    ensures Squared(square[..], mat[..], mat[..])
  {
    ghost var m := mat[..];
    for n := 0 to 32
      invariant mat[..] == m && forall k :: 0 <= k < n ==> SquaredAt(square[k], m, k)
    {
      var column := MatrixTimes(mat[..], mat[n]);
      square[n] := column;
    }
    forall k | 0 <= k < 32 ensures square[k] == Times(m, m[k]) {
      assert SquaredAt(square[k], m, k);
    }
  }

  method SquareOf(square: array<Word>, mat: array<Word>, ghost n: nat)
    requires square != mat && square.Length == mat.Length == 32 && Passes(mat[..], n)
    modifies square
    ensures Passes(square[..], 2 * n)
  {
    MatrixSquare(square, mat);
    SquarePasses(square[..], mat[..], n);
  }

  /** Puts the operator for one zero bit in odd. */
  method FirstMatrix(odd: array<Word>)
    requires odd.Length == 32
    modifies odd
    ensures Passes(odd[..], 1)
  {
    odd[0] := Poly();
    for n := 1 to 32
      invariant odd[0] == Poly() && forall k :: 1 <= k < n ==> odd[k] == Unit(k - 1)
    {
      odd[n] := Unit(n - 1);
    }
    OneBitPasses(odd[..]);
  }

  /** The register after len groups of m zero bits. */
  ghost function Left(c: Word, len: nat, m: nat): Word { Zeros(c, len * m) }

  lemma HalfLeft(c: Word, len: nat, m: nat)
    ensures Left(c, len, m) == Left(if len % 2 == 1 then Zeros(c, m) else c, len / 2, 2 * m)
  {
    var h := len / 2;
    var k := h * (2 * m);
    HalfNumbers(len, h, m);
    if len % 2 == 1 { ZerosAdd(c, m, k); }
  }

  lemma HalfNumbers(len: nat, h: nat, n: nat)
    requires h == len / 2
    ensures len * n == (if len % 2 == 1 then n else 0) + h * (2 * n)
  {
    assert len == 2 * h + len % 2;
    MulSwap(h, n);
    TimesSum(2 * h, len % 2, n);
    TimesAssoc(2, h, n);
  }

  lemma NoneLeft(c: Word, m: nat)
    ensures Left(c, 0, m) == c
  {
    assert 0 * m == 0;
  }

  /** One half of the loop of crc32_combine_: the next operator, applied if its bit is set. */
  method ApplyBit(square: array<Word>, mat: array<Word>, crc: Word, len: nat, ghost n: nat, ghost m: nat) returns (r: Word)
    requires square != mat && square.Length == mat.Length == 32 && Passes(mat[..], n) && m == 2 * n
    modifies square
    ensures Passes(square[..], m) && Left(crc, len, m) == Left(r, len / 2, 2 * m)
  {
    SquareOf(square, mat, n);
    HalfLeft(crc, len, m);
    r := crc;
    if len % 2 == 1 {
      assert PassesOn(square[..], m, crc);
      r := MatrixTimes(square[..], crc);
    }
  }

  /** The loop of crc32_combine_: len bytes of zeros through the register. */
  method ApplyZeros(even: array<Word>, odd: array<Word>, crc1: Word, len2: nat) returns (crc: Word)
    requires even != odd && even.Length == odd.Length == 32 && Passes(odd[..], 4)
    modifies even, odd
    ensures crc == Left(crc1, len2, 8)
  {
    var len := len2;
    crc := crc1;
    ghost var n: nat, m: nat := 4, 8;
    while len != 0
      invariant Passes(odd[..], n) && m == 2 * n && Left(crc, len, m) == Left(crc1, len2, 8)
      decreases len
    {
      crc := ApplyBit(even, odd, crc, len, n, m);
      len := len / 2;
      if len == 0 {
        NoneLeft(crc, 2 * m);
        return;
      }
      crc := ApplyBit(odd, even, crc, len, m, 2 * m);
      len := len / 2;
      n, m := 2 * m, 4 * m;
    }
    NoneLeft(crc, m);
  }

  /** crc32_combine_ for any length: nothing is done unless the length is positive. */
  method CrcCombine(crc1: Word, crc2: Word, len2: int) returns (r: Word)
    ensures r == if len2 <= 0 then crc1 else Combine(crc1, crc2, len2)
  {
    if len2 <= 0 {
      return crc1;
    }
    var even, odd := new Word[32](_ => Zero()), new Word[32](_ => Zero());
    FirstMatrix(odd);
    SquareOf(even, odd, 1);
    SquareOf(odd, even, 2);
    var crc := ApplyZeros(even, odd, crc1, len2);
    r := Xor(crc, crc2);
  }

  /** For checksums of strings, crc32_combine returns the checksum of the concatenation. */
  method CombineChecksums(s: seq<Octet>, t: seq<Octet>) returns (r: Word)
    ensures r == Crc(Zero(), s + t)
  {
    CombineIsConcat(s, t);
    r := CrcCombine(Crc(Zero(), s), Crc(Zero(), t), |t|);
    if |t| == 0 { assert s + t == s; }
  }

  // ---- Tables, and the loops that use them ----

  lemma IndexOctet(b: Octet)
    ensures Number(b) < 256 && BitsOf(Number(b), 8) == b
  {
    BitsOfNumber(b);
    assert Pow2(8) == 256 by { Pow2Table(); }
  }

  function Low(c: Word): Octet { c[..8] }

  /** A byte of zeros: the low byte by the table, the others by shifting. */
  lemma EightZeros(c: Word)
    ensures Zeros(c, 8) == Xor(Zeros(Placed(Low(c), 0), 8), Shr(c, 8))
  {
    var lo, hi := Placed(Low(c), 0), Falses(8) + c[8..];
    assert c == Xor(lo, hi);
    ZerosLinear(lo, hi, 8);
    ZerosShift(hi, 8);
    assert Shr(hi, 8) == Shr(c, 8);
  }

  /** Table k gives each byte followed by k bytes of zeros. */
  ghost predicate IsTable(t: seq<Word>, k: nat) {
    |t| == 256 && forall u {:trigger UnfoldTable(u)} :: UnfoldTable(u) ==> Entries(t, k, 256)
  }

  /** A definition guarded by "for every u with UnfoldTable(u)" stays folded for the verifier until
      UnfoldTable is mentioned. */
  ghost predicate UnfoldTable(u: int) { true }

  ghost predicate Entries(t: seq<Word>, k: nat, n: nat) {
    |t| == n && forall m :: 0 <= m < n ==> t[m] == Zeros(Placed(BitsOf(m, 8), 0), 8 * (k + 1))
  }

  /** Eight zero bits through the register, bit by bit. */
  method EightSteps(start: Word) returns (c: Word)
    ensures c == Zeros(start, 8)
  {
    c := start;
    for k := 0 to 8
      invariant c == Zeros(start, k)
    {
      c := if c[0] then Xor(Poly(), Shr(c, 1)) else Shr(c, 1);
    }
  }

  /** The first table of make_crc_table. */
  method FirstTable() returns (t: seq<Word>)
    ensures IsTable(t, 0)
  {
    t := [];
    for n := 0 to 256
      invariant Entries(t, 0, n)
    {
      var c := EightSteps(Placed(BitsOf(n, 8), 0));
      t := t + [c];
    }
  }

  /** A byte of zeros through the register, by the first table. */
  function ZeroByte(t: seq<Word>, c: Word): (r: Word)
    requires |t| == 256
  {
    IndexOctet(Low(c));
    Xor(t[Number(Low(c))], Shr(c, 8))
  }

  lemma ZeroByteIs(t: seq<Word>, c: Word)
    requires IsTable(t, 0)
    ensures ZeroByte(t, c) == Zeros(c, 8)
  {
    assert UnfoldTable(0);
    IndexOctet(Low(c));
    EightZeros(c);
  }

  lemma NextEntry(t: seq<Word>, c: Word, start: Word, k: nat)
    requires IsTable(t, 0) && c == Zeros(start, 8 * (k + 1))
    ensures ZeroByte(t, c) == Zeros(start, 8 * (k + 2))
  {
    ZeroByteIs(t, c);
    ZerosAdd(start, 8 * (k + 1), 8);
  }

  /** The next table of make_crc_table. */
  method NextTable(t: seq<Word>, last: seq<Word>, ghost k: nat) returns (r: seq<Word>)
    requires IsTable(t, 0) && IsTable(last, k)
    ensures IsTable(r, k + 1)
  {
    r := [];
    for n := 0 to 256
      invariant Entries(r, k + 1, n)
    {
      assert UnfoldTable(0);
      NextEntry(t, last[n], Placed(BitsOf(n, 8), 0), k);
      r := r + [ZeroByte(t, last[n])];
    }
  }

  /** DO1. */
  function UpdateByTable(t: seq<Word>, c: Word, b: Octet): Word
    requires |t| == 256
  {
    IndexOctet(Low(Xor(c, Placed(b, 0))));
    Xor(t[Number(Low(Xor(c, Placed(b, 0))))], Shr(c, 8))
  }

  lemma TableUpdates(t: seq<Word>, c: Word, b: Octet)
    requires IsTable(t, 0)
    ensures UpdateByTable(t, c, b) == Update(c, b)
  {
    assert UnfoldTable(0);
    var x := Xor(c, Placed(b, 0));
    IndexOctet(Low(x));
    EightZeros(x);
    assert Shr(x, 8) == Shr(c, 8);
  }

  /** Bytes one at a time. */
  method ByteLoop(t: seq<Word>, c0: Word, buf: seq<Octet>) returns (c: Word)
    requires IsTable(t, 0)
    ensures c == Register(c0, buf)
  {
    c := c0;
    for i := 0 to |buf|
      invariant c == Register(c0, buf[..i])
    {
      TableUpdates(t, c, buf[i]);
      assert buf[..i + 1][..i] == buf[..i];
      c := UpdateByTable(t, c, buf[i]);
    }
    assert buf[..|buf|] == buf;
  }

  /** crc32, byte by byte. */
  method CrcByBytes(t: seq<Word>, crc: Word, buf: seq<Octet>) returns (r: Word)
    requires IsTable(t, 0)
    ensures r == Crc(crc, buf)
  {
    var c := ByteLoop(t, Not(crc), buf);
    r := Not(c);
  }

  /** The bytes of s, up to four, as a word. */
  function Packed(s: seq<Octet>): Word
    requires |s| <= 4
  {
    if |s| == 0 then Zero() else Xor(Packed(s[..|s| - 1]), Placed(s[|s| - 1], |s| - 1))
  }

  /** Up to four bytes can go into the register at once. */
  lemma {:induction false} RegisterPacked(c: Word, s: seq<Octet>)
    requires |s| <= 4
    ensures Register(c, s) == Zeros(Xor(c, Packed(s)), 8 * |s|)
  {
    if |s| == 0 {
      XorZero(c);
    } else {
      var t, b, k := s[..|s| - 1], s[|s| - 1], |s| - 1;
      RegisterPacked(c, t);
      XorAssoc(c, Packed(t), Placed(b, k));
      OneMoreByte(Xor(c, Packed(t)), b, k);
    }
  }

  lemma OneMoreByte(x: Word, b: Octet, k: nat)
    requires k < 4
    ensures Update(Zeros(x, 8 * k), b) == Zeros(Xor(x, Placed(b, k)), 8 * (k + 1))
  {
    PlacedShift(b, k);
    ZerosLinear(x, Placed(b, k), 8 * k);
    ZerosAdd(Xor(x, Placed(b, k)), 8 * k, 8);
  }

  /** Byte k of a word. */
  function ByteOf(c: Word, k: nat): Octet
    requires k < 4
  {
    c[8 * k..8 * k + 8]
  }

  lemma FourBytes(c: Word)
    ensures c == Xor(Xor(Placed(ByteOf(c, 0), 0), Placed(ByteOf(c, 1), 1)), Xor(Placed(ByteOf(c, 2), 2), Placed(ByteOf(c, 3), 3)))
  {
  }

  /** Byte k of the word, with 32 zero bits after it, is in table 3 - k. */
  lemma ByteThroughTable(b: Octet, k: nat, t: seq<Word>, n: nat)
    requires k < 4 && IsTable(t, 3 - k) && n == 32
    ensures Number(b) < 256 && Zeros(Placed(b, k), n) == t[Number(b)]
  {
    assert UnfoldTable(0);
    IndexOctet(b);
    PlacedShift(b, k);
    ZerosAdd(Placed(b, k), 8 * k, 8 * (4 - k));
  }

  lemma FourLinear(c: Word, a: seq<Word>, z: seq<Word>, n: nat)
    requires |a| == |z| == 4 && c == Xor(Xor(a[0], a[1]), Xor(a[2], a[3]))
    requires forall k :: 0 <= k < 4 ==> Zeros(a[k], n) == z[k]
    ensures Zeros(c, n) == Xor(Xor(z[0], z[1]), Xor(z[2], z[3]))
  {
    ZerosLinear(Xor(a[0], a[1]), Xor(a[2], a[3]), n);
    ZerosLinear(a[0], a[1], n);
    ZerosLinear(a[2], a[3], n);
  }

  /** The entry of the table for byte k of a word. */
  function EntryFor(t: seq<seq<Word>>, c: Word, k: nat): Word
    requires k < 4 && |t| == 4 && |t[3 - k]| == 256
  {
    IndexOctet(ByteOf(c, k));
    t[3 - k][Number(ByteOf(c, k))]
  }

  /** DOLIT4. */
  function FourByTable(t: seq<seq<Word>>, c: Word): (r: Word)
    requires |t| == 4 && forall k :: 0 <= k < 4 ==> |t[k]| == 256
  {
    Xor(Xor(EntryFor(t, c, 0), EntryFor(t, c, 1)), Xor(EntryFor(t, c, 2), EntryFor(t, c, 3)))
  }

  ghost predicate Tables(t: seq<seq<Word>>) {
    |t| == 4 && forall k :: 0 <= k < 4 ==> IsTable(t[k], k)
  }

  lemma FourByTableIs(t: seq<seq<Word>>, c: Word, n: nat)
    requires Tables(t) && n == 32
    ensures FourByTable(t, c) == Zeros(c, n)
  {
    var a := [Placed(ByteOf(c, 0), 0), Placed(ByteOf(c, 1), 1), Placed(ByteOf(c, 2), 2), Placed(ByteOf(c, 3), 3)];
    var z := [EntryFor(t, c, 0), EntryFor(t, c, 1), EntryFor(t, c, 2), EntryFor(t, c, 3)];
    forall k | 0 <= k < 4 ensures Zeros(a[k], n) == z[k] {
      assert a[k] == Placed(ByteOf(c, k), k) && z[k] == EntryFor(t, c, k);
      ByteThroughTable(ByteOf(c, k), k, t[3 - k], n);
    }
    FourBytes(c);
    FourLinear(c, a, z, n);
  }

  /** All tables of make_crc_table a little-endian machine uses. */
  method MakeTables() returns (t: seq<seq<Word>>)
    ensures Tables(t)
  {
    var t0 := FirstTable();
    var t1 := NextTable(t0, t0, 0);
    var t2 := NextTable(t0, t1, 1);
    var t3 := NextTable(t0, t2, 2);
    t := [t0, t1, t2, t3];
  }

  /** Words of four bytes, as the middle of crc32_little reads them. */
  method WordLoop(t: seq<seq<Word>>, c0: Word, buf: seq<Octet>) returns (c: Word, done: nat)
    requires Tables(t)
    ensures done <= |buf| < done + 4 && c == Register(c0, buf[..done])
  {
    c, done := c0, 0;
    assert buf[..0] == [];
    while |buf| - done >= 4
      invariant done <= |buf| && c == Register(c0, buf[..done])
    {
      var word := buf[done..done + 4];
      RegisterPacked(c, word);
      RegisterConcat(c0, buf[..done], word);
      assert buf[..done] + word == buf[..done + 4];
      FourByTableIs(t, Xor(c, Packed(word)), 8 * |word|);
      c := FourByTable(t, Xor(c, Packed(word)));
      done := done + 4;
    }
  }

  /** crc32_little on a buffer at any address: bytes up to a word boundary, words, and the bytes
      that are left. */
  method CrcByWords(t: seq<seq<Word>>, crc: Word, buf: seq<Octet>, address: nat) returns (r: Word)
    requires Tables(t)
    ensures r == Crc(crc, buf)
  {
    var lead := (4 - address % 4) % 4;
    if lead > |buf| { lead := |buf|; }
    var c := ByteLoop(t[0], Not(crc), buf[..lead]);
    var done;
    ghost var c1 := c;
    c, done := WordLoop(t, c, buf[lead..]);
    ghost var c2 := c;
    c := ByteLoop(t[0], c, buf[lead + done..]);
    RegisterConcat(c1, buf[lead..][..done], buf[lead + done..]);
    assert buf[lead..][..done] + buf[lead + done..] == buf[lead..];
    RegisterConcat(Not(crc), buf[..lead], buf[lead..]);
    assert buf[..lead] + buf[lead..] == buf;
    r := Not(c);
  }
}
