/** Writing and reading strings of bits through a 32-bit buffer: bsW and bsFinishWrite of
    compress.c, GET_BITS of decompress.c. */
module BitIO {
  import opened Sequences
  import opened Bits

  /** The bits of bytes, most significant first. */
  function ByteBits(s: seq<Byte>): seq<bool> {
    if |s| == 0 then [] else ByteBits(s[..|s| - 1]) + ToBits(s[|s| - 1], 8)
  }

  lemma ByteBitsAppend(s: seq<Byte>, c: Byte)
    ensures ByteBits(s + [c]) == ByteBits(s) + ToBits(c, 8)
  {
    assert (s + [c])[..|s|] == s;
  }

  lemma OneByteBits(c: Byte)
    ensures ByteBits([c]) == ToBits(c, 8)
  {
    ByteBitsAppend([], c);
    assert [] + [c] == [c];
    assert [] + ToBits(c, 8) == ToBits(c, 8);
  }

  lemma {:induction false} ByteBitsConcat(s: seq<Byte>, t: seq<Byte>)
    ensures ByteBits(s + t) == ByteBits(s) + ByteBits(t)
  {
    if |t| == 0 {
      assert s + t == s;
    } else {
      var a, z := t[..|t| - 1], t[|t| - 1];
      ByteBitsConcat(s, a);
      assert t == a + [z] && s + t == (s + a) + [z];
      ByteBitsAppend(s + a, z);
      ByteBitsAppend(a, z);
      Sequences.Assoc(ByteBits(s), ByteBits(a), ToBits(z, 8));
    }
  }

  lemma {:induction false} ByteBitsLength(s: seq<Byte>)
    ensures |ByteBits(s)| == 8 * |s|
  {
    if |s| > 0 { ByteBitsLength(s[..|s| - 1]); }
  }

  function Zeros(n: nat): (s: seq<bool>)
    ensures |s| == n
  {
    seq(n, _ => false)
  }

  /** The buffer holds the bits at its top end, and zeros below. */
  ghost predicate TopHolds(buff: int, live: int, bits: seq<bool>) {
    0 <= live <= 32 && |bits| == live && buff == Value(bits) * Pow2(32 - live)
  }

  lemma TopEmpty()
    ensures TopHolds(0, 0, [])
  {
    var p := Pow2(32 - 0);
    assert Value([]) == 0 && 0 * p == 0;
  }

  lemma TopByteNumbers(a: nat, b: nat, p: nat, m: nat)
    requires m > 0 && b < p && p * m == 0x1000000
    ensures ((a * p + b) * m) / 0x1000000 == a
    ensures ((a * p + b) * m) * 256 % 0x100000000 == b * (m * 256)
  {
    var r := b * m;
    TimesAssoc(a, p, m);
    TimesBelow(b, p, m);
    assert (a * p + b) * m == (a * p) * m + b * m;
    SplitBits(a, r, 0x1000000);
    SplitBits(a, r * 256, 0x100000000);
    TimesAssoc(b, m, 256);
  }

  /** Taking a byte off the top. */
  lemma TopByte(buff: int, live: int, bits: seq<bool>)
    requires TopHolds(buff, live, bits) && live >= 8
    ensures 0 <= buff / 0x1000000 < 256 && ToBits(buff / 0x1000000, 8) == bits[..8]
    ensures TopHolds(buff * 256 % 0x100000000, live - 8, bits[8..])
  {
    var a, b, k := bits[..8], bits[8..], live - 8;
    assert bits == a + b;
    ValueConcat(a, b);
    ValueBound(a);
    ValueBound(b);
    Pow2Table();
    Pow2Add(k, 32 - live);
    Pow2Add(32 - live, 8);
    assert k + (32 - live) == 24 && 32 - live + 8 == 32 - k;
    TopByteNumbers(Value(a), Value(b), Pow2(k), Pow2(32 - live));
    ToBitsValue(a);
  }

  lemma AppendNumbers(a: nat, v: nat, p: nat, m: nat, k: nat)
    requires v < p && p * m == Pow2(k) && m > 0
    ensures a * Pow2(k) >= 0 && v * m >= 0
    ensures BitOr(a * Pow2(k), v * m) == (a * p + v) * m
  {
    ModOfMultiple(a, Pow2(k));
    TimesBelow(v, p, m);
    BitOrDisjoint(a * Pow2(k), v * m, k);
    TimesAssoc(a, p, m);
    TimesSum(a * p, v, m);
  }

  /** Adding n bits below those already there. */
  lemma TopAppend(buff: int, live: int, bits: seq<bool>, v: nat, n: nat)
    requires TopHolds(buff, live, bits) && live + n <= 32 && v < Pow2(n)
    ensures buff >= 0
    ensures TopHolds(BitOr(buff, v * Pow2(32 - live - n)), live + n, bits + ToBits(v, n))
  {
    var k := 32 - live;
    Pow2Add(n, k - n);
    assert n + (k - n) == k;
    var a, p, m, code := Value(bits), Pow2(n), Pow2(k - n), ToBits(v, n);
    AppendNumbers(a, v, p, m, k);
    assert Value(bits + code) == a * p + v by {
      ValueToBits(v, n);
      ValueConcat(bits, code);
    }
    assert 32 - (live + n) == k - n;
  }

  /** A definition guarded by "for every u with UnfoldBuffer(u)" stays folded for the verifier until
      UnfoldBuffer is mentioned. */
  ghost predicate UnfoldBuffer(u: int) { true }

  class BitWriter {
    var bsBuff: int
    var bsLive: int
    var zbits: seq<Byte>
    ghost var pending: seq<bool>
    /** The bytes of earlier blocks, no longer held. */
    ghost var flushed: seq<Byte>
    /** Everything written so far. */
    ghost var written: seq<bool>

    ghost predicate Valid()
      reads this
    {
      forall u {:trigger UnfoldBuffer(u)} :: UnfoldBuffer(u) ==> State()
    }

    ghost predicate State()
      reads this
    {
      TopHolds(bsBuff, bsLive, pending) && written == ByteBits(flushed + zbits) + pending
    }

    /** These bits, and nothing else, have been added. */
    twostate predicate Appended(bits: seq<bool>)
      reads this
    {
      Valid() && flushed == old(flushed) && written == old(written) + bits
    }

    /** BZ2_bsInitWrite. */
    constructor ()
      ensures Valid() && written == [] && zbits == [] && flushed == []
    {
      bsBuff, bsLive, zbits, pending, flushed, written := 0, 0, [], [], [], [];
      TopEmpty();
    }

    /** Between bytes, everything written is in the output. */
    lemma Aligned()
      requires Valid() && bsLive == 0
      ensures written == ByteBits(flushed + zbits)
    {
      assert UnfoldBuffer(0);
      assert ByteBits(flushed + zbits) + [] == ByteBits(flushed + zbits);
    }

    /** The bytes in the output are among what was written. */
    lemma Floor()
      requires Valid()
      ensures 8 * |flushed| <= 8 * |flushed + zbits| <= |written| && (bsLive == 0 ==> 8 * |flushed + zbits| == |written|)
    {
      assert UnfoldBuffer(0);
      ByteBitsLength(flushed + zbits);
    }

    /** Drops the bytes of the block before, which have been copied out (numZ = 0). */
    method Restart()
      requires Valid()
      modifies this`zbits, this`flushed
      ensures Valid() && zbits == [] && flushed == old(flushed + zbits)
    {
      assert UnfoldBuffer(0);
      flushed := flushed + zbits;
      zbits := [];
      assert flushed + [] == flushed;
    }

    /** Moves a whole byte from the buffer to the output. */
    method PutByte()
      requires State() && bsLive >= 8
      modifies this`bsBuff, this`bsLive, this`zbits, this`pending
      ensures State() && bsLive == old(bsLive) - 8
      ensures |zbits| == |old(zbits)| + 1
    {
      TopByte(bsBuff, bsLive, pending);
      ByteBitsAppend(flushed + zbits, bsBuff / 0x1000000);
      assert flushed + zbits + [bsBuff / 0x1000000] == flushed + (zbits + [bsBuff / 0x1000000]);
      assert pending == pending[..8] + pending[8..];
      zbits := zbits + [bsBuff / 0x1000000];
      bsBuff := bsBuff * 256 % 0x100000000;
      bsLive := bsLive - 8;
      pending := pending[8..];
    }

    /** Puts the n bits of v below those in the buffer. */
    method Append(n: nat, v: nat)
      requires State() && bsLive + n <= 32 && v < Pow2(n)
      modifies this`bsBuff, this`bsLive, this`pending, this`written
      ensures State() && written == old(written) + ToBits(v, n)
    {
      TopAppend(bsBuff, bsLive, pending, v, n);
      bsBuff := BitOr(bsBuff, v * Pow2(32 - bsLive - n));
      bsLive := bsLive + n;
      pending := pending + ToBits(v, n);
      written := written + ToBits(v, n);
    }

    /** bsW: writes the n bits of v. */
    method Write(n: nat, v: nat)
      requires Valid() && n <= 24 && v < Pow2(n)
      modifies this`bsBuff, this`bsLive, this`zbits, this`pending, this`written
      ensures Valid() && written == old(written) + ToBits(v, n)
    {
      assert UnfoldBuffer(0);
      while bsLive >= 8
        invariant State() && written == old(written)
        decreases bsLive
      {
        PutByte();
      }
      Append(n, v);
    }

    method PutBit(b: bool)
      requires Valid()
      modifies this`bsBuff, this`bsLive, this`zbits, this`pending, this`written
      ensures Valid() && written == old(written) + [b]
    {
      BitOf(b);
      assert Pow2(1) == 2;
      Write(1, if b then 1 else 0);
    }

    /** bsFinishWrite: pads with zeros to a byte boundary. */
    method Finish()
      requires Valid()
      modifies this`bsBuff, this`bsLive, this`zbits, this`pending, this`written
      ensures Valid() && bsLive == 0
      ensures exists pad: nat :: pad < 8 && written == old(written) + Zeros(pad)
    {
      assert UnfoldBuffer(0);
      while bsLive >= 8
        invariant State() && written == old(written)
        decreases bsLive
      {
        PutByte();
      }
      if bsLive > 0 {
        ghost var pad := 8 - bsLive;
        PadTop(bsBuff, bsLive, pending, pad);
        bsLive := 8;
        pending := pending + Zeros(pad);
        written := written + Zeros(pad);
        PutByte();
        assert written == old(written) + Zeros(pad);
      } else {
        assert written == old(written) + Zeros(0);
      }
    }
  }

  /** The zeros below the bits can be taken as bits. */
  lemma {:induction false} PadTop(buff: int, live: int, bits: seq<bool>, pad: nat)
    requires TopHolds(buff, live, bits) && live + pad <= 32
    ensures TopHolds(buff, live + pad, bits + Zeros(pad))
  {
    if pad > 0 {
      PadTop(buff, live, bits, pad - 1);
      var s, k := bits + Zeros(pad - 1), 32 - (live + pad);
      assert bits + Zeros(pad) == s + [false];
      assert (s + [false])[..|s|] == s;
      assert Pow2(k + 1) == 2 * Pow2(k);
      MulSwap(Value(s), Pow2(k));
      assert 32 - (live + (pad - 1)) == k + 1;
    } else {
      assert bits + Zeros(0) == bits;
    }
  }

  /** The low bits of the buffer hold the bits; what is above them is stale. */
  ghost predicate LowHolds(buff: int, live: int, bits: seq<bool>) {
    0 <= live <= 32 && |bits| == live && 0 <= buff < 0x100000000 && buff % Pow2(live) == Value(bits)
  }

  lemma LowEmpty()
    ensures LowHolds(0, 0, [])
  {
    assert Pow2(0) == 1 && Value([]) == 0;
  }

  /** Shifting in a byte. */
  lemma LowAppend(buff: int, live: int, bits: seq<bool>, c: Byte)
    requires LowHolds(buff, live, bits) && live + 8 <= 32
    ensures LowHolds(BitOr(buff * 256 % 0x100000000, c), live + 8, bits + ToBits(c, 8))
  {
    var k := 32 - live - 8;
    assert Pow2(8) == 256 && Pow2(live + 8) * Pow2(k) == 0x100000000 by {
      Pow2Table();
      Pow2Add(live + 8, k);
    }
    var eight: nat := 8;
    Pow2Add(live, eight);
    ShiftIn(buff, Pow2(live), Pow2(k), c, eight);
    ValueToBits(c, eight);
    ValueConcat(bits, ToBits(c, eight));
  }

  lemma ShiftIn(b: nat, p: nat, q: nat, c: nat, k: nat)
    requires p > 0 && q > 0 && (p * 256) * q == 0x100000000 && c < 256 && Pow2(k) == 256
    ensures 0 <= BitOr(b * 256 % 0x100000000, c) < 0x100000000
    ensures BitOr(b * 256 % 0x100000000, c) % (p * 256) == (b % p) * 256 + c
  {
    ModMul256(b);
    BitOrDisjoint(b * 256 % 0x100000000, c, k);
    ShiftedLow(b, p, q, c);
  }

  lemma ModMul256(b: nat)
    ensures (b * 256 % 0x100000000) % 256 == 0
  {
  }

  lemma ShiftedLow(b: nat, p: nat, q: nat, c: nat)
    requires p > 0 && q > 0 && (p * 256) * q == 0x100000000 && c < 256
    ensures (b * 256 % 0x100000000 + c) % (p * 256) == (b % p) * 256 + c
  {
    var n := p * 256;
    var x := b * 256 % 0x100000000;
    var h := b * 256 / 0x100000000;
    assert b * 256 == h * (n * q) + x;
    var d := b / p;
    assert b == d * p + b % p;
    assert b * 256 == d * n + (b % p) * 256 by { TimesAssoc(d, p, 256); }
    assert h * (n * q) == (h * q) * n by { TimesAssoc(h, n, q); TimesAssoc(h, q, n); MulCommutes(n, q); }
    assert x == (d - h * q) * n + (b % p) * 256 by { Distrib(d, h * q, n); }
    var k := d - h * q;
    assert x + c == k * n + ((b % p) * 256 + c);
    NonNegativeQuotient(k, n, x, (b % p) * 256);
    SplitBits(k, (b % p) * 256 + c, n);
  }

  lemma NonNegativeQuotient(k: int, n: int, x: int, r: int)
    requires n > 0 && x == k * n + r && 0 <= x && 0 <= r < n
    ensures k >= 0
  {
    MultipleAtLeast(k, n);
  }

  /** Taking n bits off the top of those that are live. */
  lemma LowTake(buff: int, live: int, bits: seq<bool>, n: nat)
    requires LowHolds(buff, live, bits) && n <= live
    ensures buff / Pow2(live - n) % Pow2(n) == Value(bits[..n])
    ensures LowHolds(buff, live - n, bits[n..])
  {
    var a, b, p := bits[..n], bits[n..], Pow2(live - n);
    assert bits == a + b;
    ValueConcat(a, b);
    ValueBound(a);
    ValueBound(b);
    Pow2Add(n, live - n);
    TakenNumbers(buff, Value(a), Value(b), Pow2(n), p);
  }

  lemma TakenNumbers(x: nat, a: nat, b: nat, q: nat, p: nat)
    requires p > 0 && q > 0 && x % (q * p) == a * p + b && b < p && a < q
    ensures x / p % q == a && x % p == b
  {
    var n := q * p;
    DivMod(x, n);
    Regroup(x / n, a, b, q, p);
    SplitBits(x / n * q + a, b, p);
    SplitBits(x / n, a, q);
  }

  lemma DivMod(x: nat, n: nat)
    requires n > 0
    ensures x == (x / n) * n + x % n
  {
  }

  lemma Regroup(d: nat, a: nat, b: nat, q: nat, p: nat)
    ensures d * (q * p) + (a * p + b) == (d * q + a) * p + b
  {
    TimesAssoc(d, q, p);
    TimesSum(d * q, a, p);
  }

  /** What reading something gives: a value, a stop because the input is used up, a data error, or a
      store past the end of one of the program's arrays. What the program does after such a store is
      not modelled. */
  datatype Fetch<+T> = Got(value: T) | NeedInput | DataError | Overrun {
    predicate IsFailure() { !Got? }

    function PropagateFailure<U>(): Fetch<U>
      requires IsFailure()
    {
      if NeedInput? then NeedInput else if DataError? then DataError else Overrun
    }

    function Extract(): T
      requires !IsFailure()
    {
      value
    }
  }

  /** The bytes of several pieces of input. */
  function Joined(pieces: seq<seq<Byte>>): seq<Byte> { if |pieces| == 0 then [] else pieces[0] + Joined(pieces[1..]) }

  /** The input comes in pieces, one with each call. Where the program saves its place and returns because
      a piece is used up, to go on from there in the next call, the model waits for the next piece. */
  class BitReader {
    var bsBuff: int
    var bsLive: int
    var input: seq<Byte>
    var next: nat
    /** The pieces of later calls. */
    var more: seq<seq<Byte>>
    ghost var pending: seq<bool>
    /** The bits still to be read. */
    ghost var rest: seq<bool>

    ghost predicate Valid()
      reads this
    {
      forall u {:trigger UnfoldBuffer(u)} :: UnfoldBuffer(u) ==> State()
    }

    ghost predicate State()
      reads this
    {
      LowHolds(bsBuff, bsLive, pending) && next <= |input| && rest == pending + ByteBits(Coming())
    }

    /** The bytes still to come. */
    ghost function Coming(): seq<Byte>
      reads this
      requires next <= |input|
    {
      input[next..] + Joined(more)
    }

    constructor (pieces: seq<seq<Byte>>)
      ensures Valid() && rest == ByteBits(Joined(pieces))
    {
      bsBuff, bsLive, input, next, more, pending, rest := 0, 0, [], 0, pieces, [], ByteBits(Joined(pieces));
      LowEmpty();
      new;
      assert [] + Joined(pieces) == Joined(pieces) && [] + rest == rest;
    }

    /** The next call brings the next piece. */
    method NextPiece()
      requires State() && next == |input| && |more| > 0
      modifies this`input, this`next, this`more
      ensures State() && |more| < |old(more)|
    {
      ghost var p, q := more[0], Joined(more[1..]);
      assert input[next..] + (p + q) == p[0..] + q;
      input, next, more := more[0], 0, more[1..];
    }

    /** Shifts in one byte. */
    method PullByte()
      requires State() && bsLive + 8 <= 32 && next < |input|
      modifies this`bsBuff, this`bsLive, this`next, this`pending
      ensures State() && bsLive == old(bsLive) + 8 && next == old(next) + 1
    {
      LowAppend(bsBuff, bsLive, pending, input[next]);
      ghost var later := input[next + 1..] + Joined(more);
      assert Coming() == [input[next]] + later;
      ByteBitsConcat([input[next]], later);
      OneByteBits(input[next]);
      bsBuff := BitOr(bsBuff * 256 % 0x100000000, input[next]);
      pending := pending + ToBits(input[next], 8);
      bsLive := bsLive + 8;
      next := next + 1;
    }

    /** Takes n of the bits in the buffer. */
    method Take(n: nat) returns (v: nat)
      requires State() && n <= bsLive
      modifies this`bsLive, this`pending, this`rest
      ensures State() && n <= |old(rest)| && rest == old(rest)[n..]
      ensures v == Value(old(rest)[..n])
    {
      LowTake(bsBuff, bsLive, pending, n);
      TakeFront(pending, ByteBits(Coming()), n);
      v := bsBuff / Pow2(bsLive - n) % Pow2(n);
      bsLive := bsLive - n;
      pending := pending[n..];
      rest := rest[n..];
    }

    /** GET_BITS: the next n bits as a number, or nothing taken if all input runs out first. */
    method GetBits(n: nat) returns (r: Fetch<nat>)
      requires Valid() && n <= 24
      modifies this
      ensures Valid()
      ensures n <= |old(rest)| ==> r == Got(Value(old(rest)[..n])) && rest == old(rest)[n..]
      ensures n > |old(rest)| ==> r == NeedInput && rest == old(rest)
    {
      assert UnfoldBuffer(0);
      while bsLive < n
        invariant State() && rest == old(rest)
        decreases |more|, |input| - next
      {
        if next < |input| {
          PullByte();
        } else if |more| > 0 {
          NextPiece();
        } else {
          assert Coming() == [];
          return NeedInput;
        }
      }
      var v := Take(n);
      r := Got(v);
    }

    /** GET_BIT. */
    method GetBit() returns (b: Fetch<nat>)
      requires Valid()
      modifies this
      ensures Valid()
      ensures |old(rest)| > 0 ==> b == Got(if old(rest)[0] then 1 else 0) && rest == old(rest)[1..]
      ensures |old(rest)| == 0 ==> b == NeedInput && rest == []
    {
      ghost var z := rest;
      b := GetBits(1);
      if |z| > 0 { OneBit(z); }
    }

    /** GET_BITS where a number of that width is known to come. */
    method GetNumber(n: nat, ghost v: nat, ghost tail: seq<bool>) returns (r: Fetch<nat>)
      requires Valid() && n <= 24
      modifies this
      ensures Valid() && |rest| <= |old(rest)|
      ensures r.Got? ==> r.value < Pow2(n) && n <= |old(rest)| && rest == old(rest)[n..] && r.value == Value(old(rest)[..n])
      ensures !r.Overrun? && (n <= |old(rest)| ==> r.Got?)
      ensures v < Pow2(n) && old(rest) == ToBits(v, n) + tail ==> r == Got(v) && rest == tail
    {
      ghost var z := rest;
      r := GetBits(n);
      if n <= |z| { ValueBound(z[..n]); }
      if v < Pow2(n) && z == ToBits(v, n) + tail { TakeNumber(v, n, tail); }
    }
  }

  lemma TakeFront(a: seq<bool>, b: seq<bool>, n: nat)
    requires n <= |a|
    ensures (a + b)[..n] == a[..n] && (a + b)[n..] == a[n..] + b
  {
  }

  lemma OneBit(z: seq<bool>)
    requires |z| > 0
    ensures Value(z[..1]) == if z[0] then 1 else 0
  {
    assert z[..1][..0] == [];
  }

  lemma TakeNumber(v: nat, n: nat, tail: seq<bool>)
    requires v < Pow2(n)
    ensures Value((ToBits(v, n) + tail)[..n]) == v && (ToBits(v, n) + tail)[n..] == tail
  {
    ValueToBits(v, n);
    assert (ToBits(v, n) + tail)[..n] == ToBits(v, n);
  }

  lemma BitOf(b: bool)
    ensures ToBits(if b then 1 else 0, 1) == [b]
  {
    assert Pow2(0) == 1;
  }
}
