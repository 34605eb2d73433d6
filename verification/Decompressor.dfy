/** The decompressing stream machine of bzlib.c: BZ2_bzDecompress over the FAST output, with the
    whole input at hand and room for any number of bytes in each call. */
module Decompressor {
  import opened Sequences
  import opened Bits
  import opened BitIO
  import opened RunLength
  import opened Crc
  import opened InverseBwt
  import opened BwtDecoder
  import opened BlockOutput
  import opened BlockParts
  import opened BlockReader
  import opened StreamFormat
  import opened StreamReader

  // ---- Where in a good stream a decoder stands ----

  /** The make-up of the stream expected. */
  datatype Goal = Goal(bs: nat, cs: seq<Coded>, pad: nat)

  ghost predicate GoodGoal(g: Goal) { 1 <= g.bs <= 9 && GoodBlocks(g.cs, g.bs) }

  ghost function DataTo(g: Goal, i: nat): seq<Byte>
    requires GoodGoal(g) && i <= |g.cs|
  {
    AllData(g.cs[..i], g.bs)
  }

  ghost function CrcTo(g: Goal, i: nat): nat
    requires GoodGoal(g) && i <= |g.cs|
  {
    Combined(g.cs[..i], g.bs)
  }

  /** The bits from block i on. */
  ghost function BitsFrom(g: Goal, i: nat): seq<bool>
    requires GoodGoal(g) && i <= |g.cs|
  {
    Flat(EachBlock(g.cs, g.bs)[i..]) + (TrailerBits(Combined(g.cs, g.bs)) + Zeros(g.pad))
  }

  /** The bits ahead are those from block i on. Like the next three, it takes a count that only keeps
      the verifier from looking inside. */
  ghost predicate AheadSealed(k: nat, g: Goal, i: nat, rest: seq<bool>)
    decreases k, |rest|
  {
    if k == 0 then IsAhead(g, i, rest) else AheadSealed(k - 1, g, i, rest)
  }

  ghost predicate IsAhead(g: Goal, i: nat, rest: seq<bool>) { GoodGoal(g) && i <= |g.cs| && rest == BitsFrom(g, i) }

  ghost predicate Ahead(g: Goal, i: nat, rest: seq<bool>) { AheadSealed(9, g, i, rest) }

  lemma {:induction false} AheadSeal(k: nat, g: Goal, i: nat, rest: seq<bool>)
    ensures AheadSealed(k, g, i, rest) == IsAhead(g, i, rest)
  {
    if k > 0 { AheadSeal(k - 1, g, i, rest); }
  }

  /** Between blocks, i of them done. */
  ghost predicate IsBetween(g: Goal, i: nat, sent: seq<Byte>, combined: nat) {
    GoodGoal(g) && i <= |g.cs| && sent == DataTo(g, i) && combined == CrcTo(g, i)
  }

  ghost predicate BetweenSealed(k: nat, g: Goal, i: nat, sent: seq<Byte>, combined: nat)
    decreases k, |sent|
  {
    if k == 0 then IsBetween(g, i, sent, combined) else BetweenSealed(k - 1, g, i, sent, combined)
  }

  ghost predicate BetweenBlocks(g: Goal, i: nat, sent: seq<Byte>, combined: nat) { BetweenSealed(9, g, i, sent, combined) }

  lemma {:induction false} BetweenSeal(k: nat, g: Goal, i: nat, sent: seq<Byte>, combined: nat)
    ensures BetweenSealed(k, g, i, sent, combined) == IsBetween(g, i, sent, combined)
  {
    if k > 0 { BetweenSeal(k - 1, g, i, sent, combined); }
  }

  /** Giving out block i: part is given, part is left. */
  ghost predicate IsWithin(g: Goal, i: nat, sent: seq<Byte>, combined: nat, stored: nat, crc: nat, left: seq<Byte>, given: seq<Byte>) {
    && GoodGoal(g) && i < |g.cs| && combined == CrcTo(g, i) && stored == BlockCrc(g.cs[i], g.bs)
    && given + left == DataOf(g.cs[i], g.bs) && sent == DataTo(g, i) + given && crc == CrcBytes(CrcInit, given)
  }

  ghost predicate WithinSealed(k: nat, g: Goal, i: nat, sent: seq<Byte>, combined: nat, stored: nat, crc: nat, left: seq<Byte>, given: seq<Byte>)
    decreases k, |sent|
  {
    if k == 0 then IsWithin(g, i, sent, combined, stored, crc, left, given)
    else WithinSealed(k - 1, g, i, sent, combined, stored, crc, left, given)
  }

  ghost predicate Within(g: Goal, i: nat, sent: seq<Byte>, combined: nat, stored: nat, crc: nat, left: seq<Byte>, given: seq<Byte>) {
    WithinSealed(9, g, i, sent, combined, stored, crc, left, given)
  }

  lemma {:induction false} WithinSeal(k: nat, g: Goal, i: nat, sent: seq<Byte>, combined: nat, stored: nat, crc: nat, left: seq<Byte>, given: seq<Byte>)
    ensures WithinSealed(k, g, i, sent, combined, stored, crc, left, given) == IsWithin(g, i, sent, combined, stored, crc, left, given)
  {
    if k > 0 { WithinSeal(k - 1, g, i, sent, combined, stored, crc, left, given); }
  }

  /** The header of the stream, then rest. */
  ghost predicate OpeningSealed(k: nat, bits: seq<bool>, g: Goal, rest: seq<bool>)
    decreases k, |bits|
  {
    if k == 0 then IsOpening(bits, g, rest) else OpeningSealed(k - 1, bits, g, rest)
  }

  ghost predicate IsOpening(bits: seq<bool>, g: Goal, rest: seq<bool>) { 1 <= g.bs <= 9 && bits == ByteBits(Header(g.bs)) + rest }

  ghost predicate OpeningAhead(bits: seq<bool>, g: Goal, rest: seq<bool>) { OpeningSealed(9, bits, g, rest) }

  lemma {:induction false} OpeningSeal(k: nat, bits: seq<bool>, g: Goal, rest: seq<bool>)
    ensures OpeningSealed(k, bits, g, rest) == IsOpening(bits, g, rest)
  {
    if k > 0 { OpeningSeal(k - 1, bits, g, rest); }
  }

  lemma Begins(bytes: seq<Byte>, data: seq<Byte>, g: Goal) returns (rest: seq<bool>)
    requires StreamOf(bytes, data, g.bs, g.cs, g.pad)
    ensures GoodGoal(g) && OpeningAhead(ByteBits(bytes), g, rest) && Ahead(g, 0, rest) && BetweenBlocks(g, 0, [], 0)
  {
    rest := BitsFrom(g, 0);
    AheadSeal(9, g, 0, rest);
    BetweenSeal(9, g, 0, [], 0);
    OpeningSeal(9, ByteBits(bytes), g, rest);
    assert EachBlock(g.cs, g.bs)[0..] == EachBlock(g.cs, g.bs);
    assert g.cs[..0] == [];
    Regroup(ByteBits(Header(g.bs)), BlocksBits(g.cs, g.bs), TrailerBits(Combined(g.cs, g.bs)), Zeros(g.pad));
  }

  lemma Regroup(h: seq<bool>, b: seq<bool>, t: seq<bool>, z: seq<bool>)
    ensures h + b + t + z == h + (b + (t + z))
  {
  }

  lemma FlatFrom(ss: seq<seq<bool>>, i: nat, t: seq<bool>)
    requires i < |ss|
    ensures Flat(ss[i..]) + t == ss[i] + (Flat(ss[i + 1..]) + t)
  {
    assert ss[i..][1..] == ss[i + 1..];
    Assoc(ss[i], Flat(ss[i + 1..]), t);
  }

  lemma BitsStep(g: Goal, i: nat)
    requires GoodGoal(g) && i < |g.cs|
    ensures BitsFrom(g, i) == BlockBits(g.cs[i], g.bs) + BitsFrom(g, i + 1)
  {
    var ss, t := EachBlock(g.cs, g.bs), TrailerBits(Combined(g.cs, g.bs)) + Zeros(g.pad);
    FlatFrom(ss, i, t);
  }

  /** A block comes next. */
  lemma BlockNext(g: Goal, i: nat, rest: seq<bool>) returns (body: seq<bool>, after: seq<bool>, crc: nat, bytes: seq<Byte>)
    requires Ahead(g, i, rest) && i < |g.cs|
    ensures MarkAhead(rest, true, body) && Ahead(g, i + 1, after) && Coming(body, g.cs[i], g.bs, crc, bytes, after)
    ensures GoodGoal(g) && crc == BlockCrc(g.cs[i], g.bs) && bytes == DataOf(g.cs[i], g.bs)
  {
    AheadSeal(9, g, i, rest);
    BitsStep(g, i);
    after := BitsFrom(g, i + 1);
    AheadSeal(9, g, i + 1, after);
    body := AfterMark(g.cs[i], g.bs, after);
    crc, bytes := BlockCrc(g.cs[i], g.bs), DataOf(g.cs[i], g.bs);
  }

  /** What follows when a block comes next. */
  lemma BlockBegins(g: Goal, i: nat, rest: seq<bool>, sent: seq<Byte>, combined: nat)
      returns (body: seq<bool>, after: seq<bool>, crc: nat, bytes: seq<Byte>)
    requires Ahead(g, i, rest) && BetweenBlocks(g, i, sent, combined) && i < |g.cs|
    ensures MarkAhead(rest, true, body) && Ahead(g, i + 1, after) && Coming(body, g.cs[i], g.bs, crc, bytes, after)
    ensures Within(g, i, sent, combined, crc, CrcInit, bytes, [])
  {
    body, after, crc, bytes := BlockNext(g, i, rest);
    BetweenSeal(9, g, i, sent, combined);
    WithinSeal(9, g, i, sent, combined, crc, CrcInit, bytes, []);
    assert sent + [] == sent && [] + bytes == bytes;
  }

  /** The trailer comes next. */
  lemma EndNext(g: Goal, i: nat, rest: seq<bool>, combined: nat)
    requires Ahead(g, i, rest) && i >= |g.cs| && GoodGoal(g) && combined == Combined(g.cs, g.bs)
    ensures combined < Pow2(8 * 4) && MarkAhead(rest, false, ToBits(combined, 8 * 4) + Zeros(g.pad))
  {
    AheadSeal(9, g, i, rest);
    Combined32(g.cs, g.bs);
    assert Pow2(8 * 4) == 0x100000000 by { Pow2Table(); }
    assert EachBlock(g.cs, g.bs)[i..] == [];
    TrailerParts(ByteBits(EndMagic), ToBits(combined, 32), Zeros(g.pad));
  }

  lemma TrailerParts(m: seq<bool>, c: seq<bool>, z: seq<bool>)
    ensures [] + ((m + c) + z) == m + (c + z)
  {
  }

  lemma AllOut(g: Goal, i: nat, sent: seq<Byte>, combined: nat)
    requires BetweenBlocks(g, i, sent, combined) && GoodGoal(g) && i >= |g.cs|
    ensures sent == AllData(g.cs, g.bs) && combined == Combined(g.cs, g.bs)
  {
    BetweenSeal(9, g, i, sent, combined);
    assert g.cs[..i] == g.cs;
  }

  /** Giving out more. */
  lemma GiveMore(g: Goal, i: nat, sent: seq<Byte>, combined: nat, stored: nat, crc: nat,
                 left: seq<Byte>, given: seq<Byte>, x: seq<Byte>, left': seq<Byte>)
    requires Within(g, i, sent, combined, stored, crc, left, given) && left == x + left'
    ensures Within(g, i, sent + x, combined, stored, CrcBytes(crc, x), left', given + x)
  {
    WithinSeal(9, g, i, sent, combined, stored, crc, left, given);
    WithinSeal(9, g, i, sent + x, combined, stored, CrcBytes(crc, x), left', given + x);
    Assoc(given, x, left');
    Assoc(DataTo(g, i), given, x);
    CrcConcat(CrcInit, given, x);
  }

  /** The block is out: its checksum is the stored one. */
  lemma BlockOut(g: Goal, i: nat, sent: seq<Byte>, combined: nat, stored: nat, crc: nat, given: seq<Byte>)
    requires Within(g, i, sent, combined, stored, crc, [], given)
    ensures FinalCrc(crc) == stored && BetweenBlocks(g, i + 1, sent, Mixed(combined, stored))
  {
    WithinSeal(9, g, i, sent, combined, stored, crc, [], given);
    BetweenSeal(9, g, i + 1, sent, Mixed(combined, stored));
    assert given + [] == given;
    OneMoreBlock(g, i);
  }

  lemma OneMoreBlock(g: Goal, i: nat)
    requires GoodGoal(g) && i < |g.cs|
    ensures DataTo(g, i + 1) == DataTo(g, i) + DataOf(g.cs[i], g.bs)
    ensures CrcTo(g, i + 1) == Mixed(CrcTo(g, i), BlockCrc(g.cs[i], g.bs))
  {
    DataAppend(g.cs[..i], g.cs[i], g.bs);
    assert g.cs[..i] + [g.cs[i]] == g.cs[..i + 1];
  }

  /** What has been given is a beginning of the data. */
  lemma {:induction false} DataPrefix(g: Goal, i: nat)
    requires GoodGoal(g) && i <= |g.cs|
    ensures DataTo(g, i) <= AllData(g.cs, g.bs)
    decreases |g.cs| - i
  {
    if i < |g.cs| {
      OneMoreBlock(g, i);
      DataPrefix(g, i + 1);
      PrefixTrans(DataTo(g, i), DataOf(g.cs[i], g.bs), AllData(g.cs, g.bs));
    } else {
      assert g.cs[..i] == g.cs;
    }
  }

  lemma PrefixTrans(a: seq<Byte>, b: seq<Byte>, c: seq<Byte>)
    requires a + b <= c
    ensures a <= c
  {
  }

  lemma BetweenPrefix(g: Goal, i: nat, sent: seq<Byte>, combined: nat)
    requires BetweenBlocks(g, i, sent, combined)
    ensures GoodGoal(g) && sent <= AllData(g.cs, g.bs)
  {
    BetweenSeal(9, g, i, sent, combined);
    DataPrefix(g, i);
  }

  lemma WithinPrefix(g: Goal, i: nat, sent: seq<Byte>, combined: nat, stored: nat, crc: nat, left: seq<Byte>, given: seq<Byte>)
    requires Within(g, i, sent, combined, stored, crc, left, given)
    ensures GoodGoal(g) && sent <= AllData(g.cs, g.bs)
  {
    WithinSeal(9, g, i, sent, combined, stored, crc, left, given);
    DataPrefix(g, i + 1);
    OneMoreBlock(g, i);
    Assoc(DataTo(g, i), given, left);
    PrefixTrans(sent, left, AllData(g.cs, g.bs));
  }

  // ---- Checksums, whatever the input ----

  /** A mark, and the checksum stored after it. */
  ghost predicate Says(rest: seq<bool>, block: bool, crc: nat) {
    exists body :: MarkAhead(rest, block, body) && Stored(body, crc)
  }

  /** A block given out, with the checksum that was stored for it. */
  datatype Entry = Entry(stored: nat, bytes: seq<Byte>)

  /** All bytes of the blocks. */
  ghost function AllBytes(done: seq<Entry>): seq<Byte> {
    if |done| == 0 then [] else AllBytes(done[..|done| - 1]) + done[|done| - 1].bytes
  }

  /** The stored checksums, combined. */
  ghost function AllMixed(done: seq<Entry>): nat {
    if |done| == 0 then 0 else Mixed(AllMixed(done[..|done| - 1]), done[|done| - 1].stored)
  }

  /** The stored checksum is that of the bytes. */
  ghost predicate Agrees(e: Entry) { e.stored == FinalCrc(CrcBytes(CrcInit, e.bytes)) }

  /** All bytes sent are those of blocks whose checksums agree, then part; combined is their checksum. */
  ghost predicate IsBooked(done: seq<Entry>, part: seq<Byte>, sent: seq<Byte>, combined: nat) {
    sent == AllBytes(done) + part && combined == AllMixed(done) && forall j :: 0 <= j < |done| ==> Agrees(done[j])
  }

  ghost predicate BookedSealed(k: nat, done: seq<Entry>, part: seq<Byte>, sent: seq<Byte>, combined: nat)
    decreases k, |sent|
  {
    if k == 0 then IsBooked(done, part, sent, combined) else BookedSealed(k - 1, done, part, sent, combined)
  }

  ghost predicate Booked(done: seq<Entry>, part: seq<Byte>, sent: seq<Byte>, combined: nat) { BookedSealed(9, done, part, sent, combined) }

  lemma {:induction false} BookSeal(k: nat, done: seq<Entry>, part: seq<Byte>, sent: seq<Byte>, combined: nat)
    ensures BookedSealed(k, done, part, sent, combined) == IsBooked(done, part, sent, combined)
  {
    if k > 0 { BookSeal(k - 1, done, part, sent, combined); }
  }

  /** What the books say at the end of a stream. */
  lemma BooksAgree(done: seq<Entry>, sent: seq<Byte>, combined: nat)
    requires Booked(done, [], sent, combined)
    ensures sent == AllBytes(done) && combined == AllMixed(done) && forall j :: 0 <= j < |done| ==> Agrees(done[j])
  {
    BookSeal(9, done, [], sent, combined);
    assert AllBytes(done) + [] == AllBytes(done);
  }

  lemma NothingBooked()
    ensures Booked([], [], [], 0)
  {
    BookSeal(9, [], [], [], 0);
  }

  /** A block goes on. */
  lemma BookMore(done: seq<Entry>, part: seq<Byte>, sent: seq<Byte>, combined: nat, crc: nat, x: seq<Byte>)
    requires Booked(done, part, sent, combined) && crc == CrcBytes(CrcInit, part)
    ensures Booked(done, part + x, sent + x, combined) && CrcBytes(crc, x) == CrcBytes(CrcInit, part + x)
  {
    BookSeal(9, done, part, sent, combined);
    BookSeal(9, done, part + x, sent + x, combined);
    Assoc(AllBytes(done), part, x);
    CrcConcat(CrcInit, part, x);
  }

  /** A block whose checksum agrees is done. */
  lemma BookBlock(done: seq<Entry>, part: seq<Byte>, sent: seq<Byte>, combined: nat, stored: nat)
    requires Booked(done, part, sent, combined) && stored == FinalCrc(CrcBytes(CrcInit, part))
    ensures Booked(done + [Entry(stored, part)], [], sent, Mixed(combined, stored))
  {
    var e := Entry(stored, part);
    BookSeal(9, done, part, sent, combined);
    BookSeal(9, done + [e], [], sent, Mixed(combined, stored));
    assert (done + [e])[..|done|] == done;
    assert sent + [] == sent;
    forall j | 0 <= j < |done + [e]| ensures Agrees((done + [e])[j]) {
      if j < |done| { assert Agrees(done[j]); }
    }
  }

  // ---- The machine ----

  datatype Phase = Magic | BlockHeader | Output | Idle

  /** What a call answers. With its input used up the program answers BZ_OK and waits for more;
      here that is OutOfInput, since the whole input is at hand. PastArray stands for a store past the
      end of an array, after which nothing is known. */
  datatype Code = Ok | StreamEnd | SequenceError | BadData | OutOfInput | PastArray

  function Failure<T>(f: Fetch<T>): Code
    requires f.IsFailure()
  {
    if f.NeedInput? then OutOfInput else if f.DataError? then BadData else PastArray
  }

  /** The number of blocks done; the bytes of the present one given and left; all bytes given; and the
      blocks done. */
  datatype Trace = Trace(i: nat, given: seq<Byte>, left: seq<Byte>, sent: seq<Byte>, done: seq<Entry>)

  class DState {
    const r: BitReader
    var phase: Phase
    var blockSize100k: nat
    var tt: array<int>
    var output: FastOutput?
    var storedBlockCRC: nat
    var calculatedCombinedCRC: nat
    var storedCombinedCRC: nat
    /** Whether the input is a good stream, and then its make-up and what follows its header. */
    ghost const good: bool
    ghost const g: Goal
    ghost const start: seq<bool>
    ghost var t: Trace

    ghost predicate Valid()
      reads this, r, tt, output
    {
      (good ==> GoodGoal(g)) && Sealed(9)
    }

    ghost predicate Sealed(k: nat)
      reads this, r, tt, output
      decreases k, blockSize100k
    {
      if k == 0 then State() else Sealed(k - 1)
    }

    lemma {:induction false} StateSeal(k: nat)
      ensures Sealed(k) == State()
      decreases k
    {
      if k > 0 { StateSeal(k - 1); }
    }

    /** On a good stream, everything so far is as it should be. */
    ghost predicate State()
      reads this, r, tt, output
    {
      match phase
      case Magic => Opening()
      case BlockHeader => Waiting()
      case Output => Giving()
      case Idle => r.Valid() && (good ==> GoodGoal(g))
    }

    /** Before the header. */
    ghost predicate Opening()
      reads this, r
    {
      && r.Valid() && Booked(t.done, [], t.sent, calculatedCombinedCRC)
      && (good ==> GoodGoal(g) && OpeningAhead(r.rest, g, start) && Ahead(g, 0, start) && t.i == 0 && BetweenBlocks(g, 0, t.sent, calculatedCombinedCRC))
    }

    /** Between blocks. */
    ghost predicate Waiting()
      reads this, r
    {
      && r.Valid() && 1 <= blockSize100k <= 9 && tt.Length == 100000 * blockSize100k && Booked(t.done, [], t.sent, calculatedCombinedCRC)
      && (good ==> GoodGoal(g) && blockSize100k == g.bs && Ahead(g, t.i, r.rest) && BetweenBlocks(g, t.i, t.sent, calculatedCombinedCRC))
    }

    /** While a block is given out: the output holds what is left of it. */
    ghost predicate Giving()
      reads this, r, tt, output
    {
      && Set() && Ready(output)
      && Booked(t.done, t.given, t.sent, calculatedCombinedCRC) && output.calculatedBlockCRC == CrcBytes(CrcInit, t.given)
      && (good ==> Leaves(output, t.left) && Within(g, t.i, t.sent, calculatedCombinedCRC, storedBlockCRC, output.calculatedBlockCRC, t.left, t.given))
    }

    ghost predicate Set()
      reads this, r, output
    {
      && r.Valid() && 1 <= blockSize100k <= 9 && tt.Length == 100000 * blockSize100k && output != null && output.tt == tt
      && (good ==> GoodGoal(g) && Ahead(g, t.i + 1, r.rest) && blockSize100k == g.bs)
    }

    /** BZ2_bzDecompressInit, with the input that the calls will bring. */
    constructor (pieces: seq<seq<Byte>>, ghost isGood: bool, ghost goal: Goal, ghost rest: seq<bool>)
      requires isGood ==> GoodGoal(goal) && OpeningAhead(ByteBits(Joined(pieces)), goal, rest) && Ahead(goal, 0, rest) && BetweenBlocks(goal, 0, [], 0)
      ensures Valid() && phase == Magic && t.sent == [] && fresh(r) && fresh(tt) && output == null && good == isGood && g == goal
    {
      r := new BitReader(pieces);
      phase, blockSize100k, output, storedBlockCRC, calculatedCombinedCRC, storedCombinedCRC := Magic, 0, null, 0, 0, 0;
      tt := new int[0];
      t := Trace(0, [], [], [], []);
      NothingBooked();
      good, g, start := isGood, goal, rest;
      new;
      StateSeal(9);
    }

    /** Reads the stream header. */
    method StartStream() returns (f: Fetch<bool>)
      requires Valid() && phase == Magic
      modifies this`phase, this`blockSize100k, this`tt, r
      ensures Valid() && (good ==> f.Got?) && |r.rest| <= |old(r.rest)|
      ensures if f.Got? then phase == BlockHeader && |r.rest| < |old(r.rest)| else phase == Idle
      ensures fresh(tt) || tt == old(tt)
    {
      StateSeal(9);
      var size := ReadOpening(r, g, start);
      phase := Idle;
      if size.IsFailure() {
        StateSeal(9);
        return size.PropagateFailure();
      }
      blockSize100k := size.value;
      tt := new int[100000 * blockSize100k];
      phase := BlockHeader;
      StateSeal(9);
      f := Got(true);
    }

    /** Takes up the output of a block. */
    method Install(crc: nat, o: FastOutput, ghost bytes: seq<Byte>)
      requires r.Valid() && Ready(o) && (good ==> Leaves(o, bytes))
      modifies this`phase, this`storedBlockCRC, this`output, this`t
      ensures r.Valid() && Ready(o) && (good ==> Leaves(o, bytes))
      ensures phase == Output && output == o && storedBlockCRC == crc && t == old(t).(given := [], left := bytes)
    {
      storedBlockCRC := crc;
      output := o;
      t := t.(given := [], left := bytes);
      phase := Output;
    }

    /** Reads the next block, or the trailer. */
    method NextBlock() returns (f: Fetch<bool>)
      requires Valid() && phase == BlockHeader
      modifies this`phase, this`storedBlockCRC, this`storedCombinedCRC, this`output, this`t, r, tt
      ensures Valid() && |r.rest| <= |old(r.rest)| && (f.Got? ==> |r.rest| < |old(r.rest)|)
      ensures if f == Got(true) then phase == Output && fresh(output) else phase == Idle && output == old(output)
      ensures good ==> f.Got? && (f == Got(false) ==> t.sent == AllData(g.cs, g.bs))
      ensures t.sent == old(t.sent) && t.done == old(t.done)
      ensures f.Got? ==> Says(old(r.rest), f.value, if f.value then storedBlockCRC else storedCombinedCRC)
      ensures f == Got(false) ==> Booked(t.done, [], t.sent, storedCombinedCRC)
    {
      StateSeal(9);
      ghost var h := Hints(g.cs, [], [], 0, []);
      if good { h := Hinted(g, t.i, r.rest, t.sent, calculatedCombinedCRC); }
      var next := ReadNext(r, tt, blockSize100k, calculatedCombinedCRC, h, t.i, g.pad);
      if next.Got? && next.value.NewBlock? {
        Install(next.value.stored, next.value.o, h.bytes);
        StateSeal(9);
        return Got(true);
      }
      phase := Idle;
      if next.Got? {
        storedCombinedCRC := next.value.stored;
      }
      StateSeal(9);
      f := if next.Got? then (if storedCombinedCRC == calculatedCombinedCRC then Got(false) else DataError) else next.PropagateFailure();
    }

    /** Takes note of where the machine stands. */
    method Note(p: Phase, combined: nat, ghost trace: Trace)
      requires output != null && r.Valid() && Ready(output)
      modifies this`phase, this`calculatedCombinedCRC, this`t
      ensures r.Valid() && Ready(output) && (old(Leaves(output, trace.left)) ==> Leaves(output, trace.left))
      ensures phase == p && calculatedCombinedCRC == combined && t == trace
    {
      phase, calculatedCombinedCRC, t := p, combined, trace;
    }

    /** Draws bytes from the output of the block. */
    method Draw(avail: nat) returns (bytes: seq<Byte>, how: Given, ghost left: seq<Byte>)
      requires Giving()
      modifies output
      ensures Set() && Ready(output) && |bytes| <= avail
      ensures good ==> how != Corrupt && (how == More ==> |bytes| == avail) && Leaves(output, left)
      ensures good ==> Within(g, t.i, t.sent + bytes, calculatedCombinedCRC, storedBlockCRC, output.calculatedBlockCRC, left, t.given + bytes)
      ensures good && how == Finished ==> left == []
      ensures how != Corrupt ==>
        Booked(t.done, t.given + bytes, t.sent + bytes, calculatedCombinedCRC) && output.calculatedBlockCRC == CrcBytes(CrcInit, t.given + bytes)
    {
      ghost var crc := output.calculatedBlockCRC;
      bytes, how, left := Give(output, avail, t.left);
      BookMore(t.done, t.given, t.sent, calculatedCombinedCRC, crc, bytes);
      if good { GiveMore(g, t.i, t.sent, calculatedCombinedCRC, storedBlockCRC, crc, t.left, t.given, bytes, left); }
    }

    /** The block goes on. */
    method GoOn(bytes: seq<Byte>, ghost left: seq<Byte>)
      requires Set() && Ready(output) && (good ==> Leaves(output, left))
      requires good ==> Within(g, t.i, t.sent + bytes, calculatedCombinedCRC, storedBlockCRC, output.calculatedBlockCRC, left, t.given + bytes)
      requires Booked(t.done, t.given + bytes, t.sent + bytes, calculatedCombinedCRC)
      requires output.calculatedBlockCRC == CrcBytes(CrcInit, t.given + bytes)
      modifies this`phase, this`calculatedCombinedCRC, this`t
      ensures Giving() && phase == Output && t.sent == old(t.sent) + bytes && t.done == old(t.done)
    {
      Note(Output, calculatedCombinedCRC, Trace(t.i, t.given + bytes, left, t.sent + bytes, t.done));
    }

    /** The block is finished, and its checksum is mixed in. */
    method EndBlock(bytes: seq<Byte>)
      requires Set() && Ready(output) && FinalCrc(output.calculatedBlockCRC) == storedBlockCRC
      requires good ==> Within(g, t.i, t.sent + bytes, calculatedCombinedCRC, storedBlockCRC, output.calculatedBlockCRC, [], t.given + bytes)
      requires Booked(t.done, t.given + bytes, t.sent + bytes, calculatedCombinedCRC)
      requires output.calculatedBlockCRC == CrcBytes(CrcInit, t.given + bytes)
      modifies this`phase, this`calculatedCombinedCRC, this`t
      ensures Waiting() && phase == BlockHeader && t.sent == old(t.sent) + bytes
      ensures t.done == old(t.done) + [Entry(storedBlockCRC, old(t.given) + bytes)]
    {
      BookBlock(t.done, t.given + bytes, t.sent + bytes, calculatedCombinedCRC, storedBlockCRC);
      if good { BlockOut(g, t.i, t.sent + bytes, calculatedCombinedCRC, storedBlockCRC, output.calculatedBlockCRC, t.given + bytes); }
      Note(BlockHeader, Mixed(calculatedCombinedCRC, storedBlockCRC),
           Trace(t.i + 1, t.given + bytes, [], t.sent + bytes, t.done + [Entry(storedBlockCRC, t.given + bytes)]));
    }

    /** Gives out as much of the block as there is room for. */
    method GiveOut(avail: nat) returns (bytes: seq<Byte>, end: Given)
      requires Valid() && phase == Output
      modifies this`phase, this`calculatedCombinedCRC, this`t, output
      ensures Valid() && t.sent == old(t.sent) + bytes && |bytes| <= avail
      ensures phase == (match end case Corrupt => Idle case More => Output case Finished => BlockHeader)
      ensures good ==> end != Corrupt && (end == More ==> |bytes| == avail)
      ensures t.done == old(t.done) + if end == Finished then [Entry(storedBlockCRC, old(t.given) + bytes)] else []
    {
      StateSeal(9);
      var how;
      ghost var left;
      bytes, how, left := Draw(avail);
      end := how;
      if how == More {
        GoOn(bytes, left);
      } else {
        if good && how == Finished {
          BlockOut(g, t.i, t.sent + bytes, calculatedCombinedCRC, storedBlockCRC, output.calculatedBlockCRC, t.given + bytes);
        }
        if how == Finished && FinalCrc(output.calculatedBlockCRC) == storedBlockCRC {
          EndBlock(bytes);
        } else {
          end := Corrupt;
          Note(Idle, calculatedCombinedCRC, t.(sent := t.sent + bytes));
        }
      }
      StateSeal(9);
    }

    /** On a good stream, everything given is a beginning of the data. */
    lemma GivenPrefix()
      requires Valid() && good && phase != Idle
      ensures t.sent <= AllData(g.cs, g.bs)
    {
      StateSeal(9);
      if phase == Output {
        WithinPrefix(g, t.i, t.sent, calculatedCombinedCRC, storedBlockCRC, output.calculatedBlockCRC, t.left, t.given);
      } else {
        BetweenPrefix(g, t.i, t.sent, calculatedCombinedCRC);
      }
    }

    /** Reads on to the next block, from the start or from the end of a block. */
    method NextPart() returns (code: Code)
      requires Valid() && (phase == Magic || phase == BlockHeader)
      modifies this`phase, this`blockSize100k, this`tt, this`storedBlockCRC, this`storedCombinedCRC, this`output, this`t, r, tt
      ensures Valid() && t.sent == old(t.sent) && code != SequenceError
      ensures if code == Ok then phase == Output && |r.rest| < |old(r.rest)| else phase == Idle
      ensures good ==> code == Ok || (code == StreamEnd && t.sent == AllData(g.cs, g.bs))
      ensures code == StreamEnd ==> Booked(t.done, [], t.sent, storedCombinedCRC)
      ensures (fresh(tt) || tt == old(tt)) && (fresh(output) || output == old(output))
    {
      if phase == Magic {
        var started := StartStream();
        if started.IsFailure() {
          return Failure(started);
        }
      }
      var next := NextBlock();
      code := if next.IsFailure() then Failure(next) else if next.value then Ok else StreamEnd;
    }

    /** BZ2_bzDecompress with room for avail bytes. On a good stream it fills the room, or comes to
        the end of the stream having given exactly the stream's data. Whatever the input, at the end of
        the stream the bytes given are those of blocks whose stored checksums agree with their bytes, and
        the stored combined checksum is that of all. */
    method Decompress(avail: nat) returns (code: Code, out: seq<Byte>)
      requires Valid()
      modifies this, r, tt, output
      ensures Valid() && |out| <= avail && t.sent == old(t.sent) + out
      ensures old(phase) == Idle ==> code == SequenceError && out == []
      ensures good && old(phase) != Idle ==> (code == Ok && |out| == avail) || (code == StreamEnd && t.sent == AllData(g.cs, g.bs))
      ensures good && old(phase) != Idle ==> t.sent <= AllData(g.cs, g.bs)
      ensures code == StreamEnd ==> Booked(t.done, [], t.sent, storedCombinedCRC)
      ensures phase == Idle <==> code != Ok
      ensures (fresh(tt) || tt == old(tt)) && (fresh(output) || output == old(output))
    {
      out := [];
      while phase != Idle
        invariant Valid() && |out| <= avail && t.sent == old(t.sent) + out
        invariant old(phase) == Idle ==> phase == Idle && out == []
        invariant old(phase) != Idle ==> phase != Idle
        invariant (fresh(tt) || tt == old(tt)) && (fresh(output) || output == old(output))
        decreases |r.rest|
      {
        if phase == Output {
          var bytes, end := GiveOut(avail - |out|);
          Assoc(old(t.sent), out, bytes);
          out := out + bytes;
          if end == Corrupt {
            return BadData, out;
          }
          if end == More {
            if good { GivenPrefix(); }
            return Ok, out;
          }
        }
        code := NextPart();
        if code != Ok {
          return;
        }
      }
      code := SequenceError;
    }
  }

  /** What should come next: the blocks, the bits after the mark and after the block, and the
      block's checksum and data. */
  datatype Hints = Hints(cs: seq<Coded>, body: seq<bool>, after: seq<bool>, crc: nat, bytes: seq<Byte>)

  /** The hints fit the bits ahead. */
  ghost predicate Fits(h: Hints, i: nat, bs: nat, rest: seq<bool>, combined: nat, pad: nat) {
    if i < |h.cs| then MarkAhead(rest, true, h.body) && Coming(h.body, h.cs[i], bs, h.crc, h.bytes, h.after)
    else MarkAhead(rest, false, h.body) && combined < Pow2(8 * 4) && h.body == ToBits(combined, 8 * 4) + Zeros(pad)
  }

  lemma Hinted(g: Goal, i: nat, rest: seq<bool>, sent: seq<Byte>, combined: nat) returns (h: Hints)
    requires GoodGoal(g) && Ahead(g, i, rest) && BetweenBlocks(g, i, sent, combined)
    ensures h.cs == g.cs && Fits(h, i, g.bs, rest, combined, g.pad)
    ensures if i < |g.cs| then Ahead(g, i + 1, h.after) && Within(g, i, sent, combined, h.crc, CrcInit, h.bytes, [])
            else sent == AllData(g.cs, g.bs)
  {
    if i < |g.cs| {
      var body, after, crc, bytes := BlockBegins(g, i, rest, sent, combined);
      h := Hints(g.cs, body, after, crc, bytes);
    } else {
      AllOut(g, i, sent, combined);
      EndNext(g, i, rest, combined);
      h := Hints(g.cs, ToBits(combined, 8 * 4) + Zeros(g.pad), [], 0, []);
    }
  }

  /** Reads the checksum of the trailer, after its mark. */
  method ReadTrailer(r: BitReader, ghost combinedCRC: nat, ghost pad: nat) returns (stored: Fetch<nat>)
    requires r.Valid()
    modifies r
    ensures r.Valid() && |r.rest| <= |old(r.rest)|
    ensures stored.Got? ==> Stored(old(r.rest), stored.value)
    ensures (combinedCRC < Pow2(8 * 4) && old(r.rest) == ToBits(combinedCRC, 8 * 4) + Zeros(pad)) ==> stored == Got(combinedCRC)
  {
    stored := GetBytes(r, 4, combinedCRC, Zeros(pad));
  }

  datatype Next = NewBlock(stored: nat, o: FastOutput) | TheEnd(stored: nat)

  method ReadNext(r: BitReader, tt: array<int>, blockSize100k: nat, ghost combinedCRC: nat, ghost h: Hints, ghost i: nat, ghost pad: nat)
      returns (next: Fetch<Next>)
    requires r.Valid() && tt.Length == 100000 * blockSize100k && blockSize100k <= 9
    modifies r, tt
    ensures r.Valid() && |r.rest| <= |old(r.rest)| && (next.Got? ==> |r.rest| < |old(r.rest)|)
    ensures next.Got? ==> Says(old(r.rest), next.value.NewBlock?, next.value.stored)
    ensures next.Got? && next.value.NewBlock? ==>
              fresh(next.value.o) && next.value.o.tt == tt && Ready(next.value.o) && next.value.o.calculatedBlockCRC == CrcInit
    ensures Fits(h, i, blockSize100k, old(r.rest), combinedCRC, pad) ==> next.Got? && (next.value.NewBlock? <==> i < |h.cs|)
    ensures Fits(h, i, blockSize100k, old(r.rest), combinedCRC, pad) && i >= |h.cs| ==> next == Got(TheEnd(combinedCRC))
    ensures Fits(h, i, blockSize100k, old(r.rest), combinedCRC, pad) && i < |h.cs| ==>
              r.rest == h.after && next.value.stored == h.crc && Leaves(next.value.o, h.bytes)
  {
    ghost var block := i < |h.cs|;
    ghost var c := if block then h.cs[i] else Coded(Parts([], [], 0, [], []), []);
    ghost var z := r.rest;
    var mark :- ReadMark(r, block, h.body);
    ghost var body := r.rest;
    assert MarkAhead(z, mark, body);
    if mark {
      var both :- StartOutput(r, tt, blockSize100k, c, h.crc, h.bytes, h.after);
      next := Got(NewBlock(both.0, both.1));
    } else {
      var stored :- ReadTrailer(r, combinedCRC, pad);
      next := Got(TheEnd(stored));
    }
  }

  method ReadOpening(r: BitReader, ghost g: Goal, ghost start: seq<bool>) returns (size: Fetch<nat>)
    requires r.Valid()
    modifies r
    ensures r.Valid() && |r.rest| <= |old(r.rest)| && (size.Got? ==> |r.rest| < |old(r.rest)| && 1 <= size.value <= 9)
    ensures OpeningAhead(old(r.rest), g, start) ==> size == Got(g.bs) && r.rest == start
  {
    OpeningSeal(9, r.rest, g, start);
    size := ReadHeader(r, g.bs, start);
  }
}
