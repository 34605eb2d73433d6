/** The compressing stream machine of bzlib.c: BZ2_bzCompress and what it calls, down to
    BZ2_compressBlock of compress.c. */
module Compressor {
  import opened Sequences
  import opened Bits
  import opened BitIO
  import opened RunLength
  import opened Crc
  import opened StreamFormat
  import opened StreamWriter
  import opened RunCollector

  // ---- The books: what has been written against what has been read ----

  /** The bits written; whether header and trailer are among them; the finished blocks; the
      filling after the trailer; the combined checksum; and the input in the blocks. */
  datatype Book = Book(written: seq<bool>, headed: bool, closed: bool, done: seq<Coded>, pad: nat, combined: nat, sealed: seq<Byte>)

  /** A definition guarded by "for every u with UnfoldBooks(u)" stays folded for the verifier
      until UnfoldBooks is mentioned. */
  ghost predicate UnfoldBooks(u: int) { true }

  /** The books are right; kept folded. */
  ghost predicate Right(b: Book, bs: nat) {
    forall u {:trigger UnfoldBooks(u)} :: UnfoldBooks(u) ==> Balanced(b, bs)
  }

  /** The bits written are the header, once it is due, the finished blocks, and the trailer once
      the stream is closed. */
  ghost predicate Balanced(b: Book, bs: nat) {
    && 1 <= bs <= 9 && GoodBlocks(b.done, bs) && b.combined == Combined(b.done, bs) && b.sealed == AllData(b.done, bs)
    && (!b.headed ==> b.done == [] && !b.closed) && (b.closed ==> b.pad < 8)
    && b.written == Opening(b.headed, bs) + BlocksBits(b.done, bs) + Closing(b.closed, b.combined, b.pad)
  }

  ghost function Opening(headed: bool, bs: nat): seq<bool>
    requires 1 <= bs <= 9
  {
    if headed then ByteBits(Header(bs)) else []
  }

  ghost function Closing(closed: bool, combined: nat, pad: nat): seq<bool> {
    if closed then TrailerBits(combined) + Zeros(pad) else []
  }

  const NewBook: Book := Book([], false, false, [], 0, 0, [])

  lemma BooksStart(bs: nat)
    requires 1 <= bs <= 9
    ensures Right(NewBook, bs)
  {
  }

  lemma BooksHeader(b: Book, bs: nat)
    requires Right(b, bs) && !b.headed && 1 <= bs <= 9
    ensures Right(b.(written := b.written + ByteBits(Header(bs)), headed := true), bs) && !b.closed
  {
    assert UnfoldBooks(0);
    assert BlocksBits(b.done, bs) == [];
    assert [] + ByteBits(Header(bs)) == ByteBits(Header(bs)) == ByteBits(Header(bs)) + [] + [];
  }

  /** The bits, checksum and input of a block; kept folded. */
  ghost predicate IsBlock(c: Coded, bs: nat, bits: seq<bool>, crc: nat, bytes: seq<Byte>) {
    forall u {:trigger UnfoldBooks(u)} :: UnfoldBooks(u) ==>
      GoodBlock(c, bs) && bits == BlockBits(c, bs) && crc == BlockCrc(c, bs) && bytes == DataOf(c, bs)
  }

  ghost function WithBlock(b: Book, c: Coded, bits: seq<bool>, combined: nat, bytes: seq<Byte>): Book {
    b.(written := b.written + bits, done := b.done + [c], combined := combined, sealed := b.sealed + bytes)
  }

  lemma BooksBlock(b: Book, bs: nat, c: Coded, bits: seq<bool>, crc: nat, bytes: seq<Byte>)
    requires Right(b, bs) && b.headed && !b.closed && IsBlock(c, bs, bits, crc, bytes)
    ensures Right(WithBlock(b, c, bits, Mixed(b.combined, crc), bytes), bs)
  {
    assert UnfoldBooks(0);
    var done, done' := b.done, b.done + [c];
    assert GoodBlocks(done', bs) && BlocksBits(done', bs) == BlocksBits(done, bs) + bits by {
      BlocksAppend(done, c, bs);
    }
    assert AllData(done', bs) == b.sealed + bytes && Combined(done', bs) == Mixed(b.combined, crc) by {
      DataAppend(done, c, bs);
    }
    OneMore(ByteBits(Header(bs)), BlocksBits(done, bs), bits);
  }

  lemma OneMore(h: seq<bool>, x: seq<bool>, y: seq<bool>)
    ensures (h + x + []) + y == h + (x + y) + []
  {
  }

  lemma BooksTrailer(b: Book, bs: nat, pad: nat)
    requires Right(b, bs) && b.headed && !b.closed && pad < 8
    ensures Right(b.(written := b.written + (TrailerBits(b.combined) + Zeros(pad)), closed := true, pad := pad), bs)
  {
    assert UnfoldBooks(0);
    var h, x := ByteBits(Header(bs)), BlocksBits(b.done, bs);
    assert h + x + [] == h + x;
  }

  lemma BooksCrc(b: Book, bs: nat)
    requires Right(b, bs)
    ensures b.combined < 0x100000000
  {
    assert UnfoldBooks(0);
    Combined32(b.done, bs);
  }

  /** A closed stream is complete. */
  lemma BooksClosed(b: Book, bs: nat, bytes: seq<Byte>)
    requires Right(b, bs) && b.closed && b.written == ByteBits(bytes)
    ensures IsStream(bytes, b.sealed)
  {
    assert UnfoldBooks(0);
    Assoc(ByteBits(Header(bs)) + BlocksBits(b.done, bs), TrailerBits(b.combined), Zeros(b.pad));
    assert StreamOf(bytes, b.sealed, bs, b.done, b.pad);
  }

  // ---- BZ2_compressBlock ----

  /** The header of the stream, before the first block. */
  method OpenStream(w: BitWriter, blockNo: nat, blockSize100k: nat, ghost b: Book) returns (ghost b': Book)
    requires w.Valid() && Right(b, blockSize100k) && b.written == w.written && 1 <= blockSize100k <= 9
    requires (b.headed <==> blockNo != 1) && !b.closed
    modifies w
    ensures w.Valid() && Right(b', blockSize100k) && b'.written == w.written && w.flushed == old(w.flushed)
    ensures b'.headed && !b'.closed && b'.combined == b.combined && b'.sealed == b.sealed
  {
    b' := b;
    if blockNo == 1 {
      BooksHeader(b, blockSize100k);
      PutBytes(w, Header(blockSize100k));
      b' := b.(written := w.written, headed := true);
    }
  }

  /** Finalises the checksum of the collected block and writes the block. */
  method WriteCollected(w: BitWriter, rl: Collector, blockSize100k: nat) returns (blockCRC: nat, ghost c: Coded, ghost bits: seq<bool>)
    requires w.Valid() && rl.Valid() && 0 < |rl.block| <= 100000 * blockSize100k - 10 <= 900000
    modifies w
    ensures IsBlock(c, blockSize100k, bits, blockCRC, rl.inBlock) && w.Appended(bits)
  {
    rl.BlockContents();
    blockCRC := FinalCrc(rl.blockCRC);
    c, bits := WriteBlock(w, rl.block, rl.inUse, blockCRC, blockSize100k, rl.runs);
    BlockData(c, blockSize100k);
  }

  lemma BlockData(c: Coded, bs: nat)
    requires GoodBlock(c, bs)
    ensures WellFormed(c.runs) && DataOf(c, bs) == RunBytes(c.runs)
  {
    assert UnfoldBlock(0);
  }

  /** The block itself, unless it is empty. */
  method SendBlock(w: BitWriter, rl: Collector, blockSize100k: nat, combinedCRC: nat, ghost b: Book) returns (combined: nat, ghost b': Book)
    requires w.Valid() && Right(b, blockSize100k) && b.written == w.written && b.headed && !b.closed && b.combined == combinedCRC
    requires rl.Valid() && |rl.block| <= 100000 * blockSize100k - 10 <= 900000
    modifies w
    ensures w.Valid() && Right(b', blockSize100k) && b'.written == w.written && w.flushed == old(w.flushed)
    ensures b'.headed && !b'.closed && b'.combined == combined && b'.sealed == b.sealed + rl.inBlock
  {
    if |rl.block| > 0 {
      var blockCRC;
      ghost var c, bits;
      blockCRC, c, bits := WriteCollected(w, rl, blockSize100k);
      combined := Mixed(combinedCRC, blockCRC);
      BooksBlock(b, blockSize100k, c, bits, blockCRC, rl.inBlock);
      b' := WithBlock(b, c, bits, combined, rl.inBlock);
    } else {
      combined, b' := combinedCRC, b;
      rl.EmptyBlock();
      assert b.sealed + [] == b.sealed;
    }
  }

  /** The trailer. */
  method CloseStream(w: BitWriter, combinedCRC: nat, ghost bs: nat, ghost b: Book) returns (ghost b': Book)
    requires w.Valid() && Right(b, bs) && b.written == w.written && b.headed && !b.closed && b.combined == combinedCRC
    modifies w
    ensures w.Valid() && Right(b', bs) && b'.written == w.written && w.flushed == old(w.flushed) && w.bsLive == 0
    ensures b'.headed && b'.closed && b'.combined == combinedCRC && b'.sealed == b.sealed && |w.zbits| > 0
  {
    BooksCrc(b, bs);
    w.Floor();
    ghost var pad := WriteTrailer(w, combinedCRC);
    w.Floor();
    BooksTrailer(b, bs, pad);
    b' := b.(written := w.written, closed := true, pad := pad);
  }

  // ---- The machine ----

  datatype Mode = Idle | Running | Flushing | Finishing
  datatype State = Input | Output
  datatype Action = Run | Flush | Finish | Other
  datatype Code = RunOk | FlushOk | FinishOk | StreamEnd | SequenceError | ParamError

  /** The caller's side: what is left of its input, the room in its buffer, what was put there. */
  class BzStream {
    var nextIn: seq<Byte>
    var availOut: nat
    var nextOut: seq<Byte>

    constructor (nextIn: seq<Byte>, availOut: nat)
      ensures this.nextIn == nextIn && this.availOut == availOut && nextOut == []
    {
      this.nextIn, this.availOut, nextOut := nextIn, availOut, [];
    }
  }

  /** What the invariant of the machine speaks of. */
  datatype View = View(mode: Mode, state: State, due: nat, blockNo: nat, combined: nat, pos: nat,
                       flushed: seq<Byte>, zbits: seq<Byte>, aligned: bool, written: seq<bool>,
                       block: seq<Byte>, inBlock: seq<Byte>, pending: seq<Byte>, empty: bool,
                       book: Book, data: seq<Byte>, emitted: seq<Byte>)

  /** The books agree with the fields, and what was given out is what was written, as far as pos. */
  ghost predicate Sound(v: View, bs: nat) {
    && v.book.written == v.written && v.book.combined == v.combined && v.blockNo >= 1 && 1 <= bs <= 9
    && v.pos <= |v.zbits| && v.emitted == v.flushed + v.zbits[..v.pos]
  }

  /** A block is being collected. */
  ghost predicate Collecting(v: View) {
    && !v.book.closed && (v.book.headed <==> v.blockNo != 1) && v.zbits == [] && v.pos == 0
    && v.data == v.book.sealed + (v.inBlock + v.pending) && v.mode != Idle
  }

  /** A block is being given out; the run in progress belongs to the next. */
  ghost predicate Giving(v: View, bs: nat) {
    && v.book.headed && v.data == v.book.sealed + v.pending && |v.block| <= 100000 * bs - 10 && (v.empty ==> v.pending == [])
    && (v.book.closed <==> (v.mode == Finishing || v.mode == Idle) && v.empty && v.due == 0)
    && (v.book.closed ==> v.aligned) && (v.mode == Running ==> !v.empty)
    && (v.mode == Idle ==> v.pos == |v.zbits| && v.book.closed)
  }

  ghost predicate Good(v: View, bs: nat) {
    && Sound(v, bs)
    && if v.state == Input then Collecting(v) && |v.block| <= 100000 * bs - 15 && (v.empty ==> v.block == []) else Giving(v, bs)
  }

  lemma PreparedGood(v: View, v': View, bs: nat)
    requires Good(v, bs) && v.state == Output && v.pos == |v.zbits| && !v.book.closed
    requires v' == v.(state := Input, pos := 0, zbits := [], flushed := v.flushed + v.zbits, blockNo := v.blockNo + 1, block := [], inBlock := [])
    ensures Good(v', bs)
  {
    assert v.zbits[..v.pos] == v.zbits;
    assert [] + v.pending == v.pending;
  }

  lemma CompressedGood(v: View, v': View, bs: nat, isLast: bool)
    requires Sound(v, bs) && Collecting(v) && |v.block| <= 100000 * bs - 10
    requires v.empty ==> v.pending == [] && v.mode != Running && v.due == 0
    requires isLast <==> v.mode == Finishing && v.empty && v.due == 0
    requires v' == v.(state := Output, combined := v'.combined, zbits := v'.zbits, aligned := v'.aligned, written := v'.written, book := v'.book)
    requires v'.book.written == v'.written && v'.book.combined == v'.combined && v'.book.headed && v'.book.closed == isLast
    requires v'.book.sealed == v.book.sealed + v.inBlock && (isLast ==> v'.aligned)
    ensures Good(v', bs)
  {
    Assoc(v.book.sealed, v.inBlock, v.pending);
    assert v.zbits[..0] == [] && v'.zbits[..0] == [];
  }

  /** What was added to the output so far is what the caller got. */
  ghost predicate Gave(e: seq<Byte>, n: seq<Byte>, e': seq<Byte>, n': seq<Byte>) {
    |e| <= |e'| && e'[..|e|] == e && n' == n + e'[|e|..]
  }

  lemma GaveNothing(e: seq<Byte>, n: seq<Byte>)
    ensures Gave(e, n, e, n)
  {
  }

  lemma GaveMore(e: seq<Byte>, n: seq<Byte>, e1: seq<Byte>, n1: seq<Byte>, e2: seq<Byte>, n2: seq<Byte>)
    requires Gave(e, n, e1, n1) && Gave(e1, n1, e2, n2)
    ensures Gave(e, n, e2, n2)
  {
    assert e2[..|e|] == e1[..|e|];
    assert e2[|e|..] == e1[|e|..] + e2[|e1|..];
  }

  /** Ending the run in progress. */
  lemma FlushedGood(v: View, v': View, bs: nat)
    requires Sound(v, bs) && Collecting(v)
    requires v' == v.(block := v'.block, inBlock := v.inBlock + v.pending, pending := [], empty := true)
    ensures Sound(v', bs) && Collecting(v')
  {
    assert v'.inBlock + [] == v'.inBlock;
  }

  /** Taking one byte. */
  lemma AddedGood(v: View, v': View, bs: nat, ch: Byte)
    requires Good(v, bs) && v.state == Input && |v.block| < 100000 * bs - 19 && |v'.block| <= |v.block| + 5
    requires v' == v.(block := v'.block, inBlock := v'.inBlock, pending := v'.pending, empty := false, data := v.data + [ch], due := v'.due)
    requires v'.inBlock + v'.pending == v.inBlock + v.pending + [ch]
    ensures Good(v', bs)
  {
    Assoc(v.book.sealed, v.inBlock + v.pending, [ch]);
  }

  /** Giving one byte. */
  lemma GivenGood(v: View, v': View, bs: nat)
    requires Good(v, bs) && v.state == Output && v.pos < |v.zbits| && v.mode != Idle
    requires v' == v.(pos := v.pos + 1, emitted := v.emitted + [v.zbits[v.pos]])
    ensures Good(v', bs)
  {
    assert v.zbits[..v.pos + 1] == v.zbits[..v.pos] + [v.zbits[v.pos]];
  }

  class EState {
    const blockSize100k: nat
    const nblockMAX: int
    const rl: Collector
    const w: BitWriter
    var mode: Mode
    var state: State
    var availInExpect: nat
    var blockNo: nat
    var combinedCRC: nat
    var stateOutPos: nat
    ghost var book: Book
    /** All input taken, and all output given, since the start. */
    ghost var data: seq<Byte>
    ghost var emitted: seq<Byte>

    ghost function Snap(): View
      reads this, rl, w
    {
      View(mode, state, availInExpect, blockNo, combinedCRC, stateOutPos, w.flushed, w.zbits, w.bsLive == 0, w.written,
           rl.block, rl.inBlock, rl.pending, rl.Empty(), book, data, emitted)
    }

    ghost predicate Parts()
      reads this, rl, w
    {
      rl.Valid() && w.Valid() && Right(book, blockSize100k) && nblockMAX == 100000 * blockSize100k - 19
    }

    ghost predicate Valid()
      reads this, rl, w
    {
      Parts() && Good(Snap(), blockSize100k)
    }

    /** A closed stream still has bytes to give; so it is from one call to the next. */
    ghost predicate Unfinished()
      reads this, w
    {
      mode == Finishing && state == Output && book.closed ==> stateOutPos < |w.zbits|
    }

    /** Between calls. */
    ghost predicate Resting()
      reads this, rl, w
    {
      RestSealed(9)
    }

    /** The count only keeps the verifier from looking inside. */
    ghost predicate RestSealed(k: nat)
      reads this, rl, w
      decreases k, blockNo
    {
      if k == 0 then Valid() && Unfinished() else RestSealed(k - 1)
    }

    lemma {:induction false} RestSeal(k: nat)
      ensures RestSealed(k) == (Valid() && Unfinished())
      decreases k
    {
      if k > 0 { RestSeal(k - 1); }
    }

    lemma RestOpen()
      requires Resting()
      ensures Valid() && Unfinished()
    {
      RestSeal(9);
    }

    lemma RestClose()
      requires Valid() && Unfinished()
      ensures Resting()
    {
      RestSeal(9);
    }

    /** BZ2_bzCompressInit for a valid block size. */
    constructor (blockSize100k: nat)
      requires 1 <= blockSize100k <= 9
      ensures Resting() && data == [] && emitted == [] && mode == Running && fresh(rl) && fresh(w)
    {
      this.blockSize100k, nblockMAX := blockSize100k, 100000 * blockSize100k - 19;
      rl := new Collector();
      w := new BitWriter();
      mode, state, availInExpect, blockNo, combinedCRC, stateOutPos := Running, Input, 0, 1, 0, 0;
      book, data, emitted := NewBook, [], [];
      BooksStart(blockSize100k);
      new;
      RestClose();
    }

    /** prepare_new_block, once everything has been given out. */
    method PrepareNewBlock()
      requires Valid() && state == Output && stateOutPos == |w.zbits| && !book.closed
      modifies this`stateOutPos, this`blockNo, this`state, rl, w
      ensures Valid() && state == Input && rl.block == [] && rl.pending == old(rl.pending) && rl.Empty() == old(rl.Empty())
    {
      ghost var v := Snap();
      rl.StartBlock();
      w.Restart();
      stateOutPos := 0;
      blockNo := blockNo + 1;
      state := Input;
      PreparedGood(v, Snap(), blockSize100k);
    }

    /** BZ2_compressBlock, and the switch to giving out. */
    method CompressBlock(isLast: bool)
      requires Parts() && Sound(Snap(), blockSize100k) && Collecting(Snap()) && |rl.block| <= 100000 * blockSize100k - 10
      requires rl.Empty() ==> rl.pending == [] && mode != Running && availInExpect == 0
      requires isLast <==> mode == Finishing && rl.Empty() && availInExpect == 0
      modifies this`book, this`combinedCRC, this`state, w
      ensures Valid() && state == Output && Unfinished()
    {
      ghost var v := Snap();
      ghost var b := OpenStream(w, blockNo, blockSize100k, book);
      var combined;
      combined, b := SendBlock(w, rl, blockSize100k, combinedCRC, b);
      if isLast { b := CloseStream(w, combined, blockSize100k, b); }
      book, combinedCRC, state := b, combined, Output;
      CompressedGood(v, Snap(), blockSize100k, isLast);
    }

    /** In the flushing and finishing modes, the input promised is the input there is. */
    ghost predicate Agrees(strm: BzStream)
      reads this, strm
    {
      mode != Running ==> availInExpect == |strm.nextIn|
    }

    /** One byte from the caller into the block. */
    method TakeByte(strm: BzStream)
      requires Valid() && state == Input && Agrees(strm) && |rl.block| < nblockMAX && |strm.nextIn| > 0
      modifies rl, this`data, this`availInExpect, strm`nextIn
      ensures Valid() && Agrees(strm) && !rl.Empty()
      ensures data == old(data) + [old(strm.nextIn)[0]] && strm.nextIn == old(strm.nextIn)[1..]
    {
      ghost var v := Snap();
      var ch := strm.nextIn[0];
      rl.AddChar(ch);
      strm.nextIn := strm.nextIn[1..];
      if mode != Running { availInExpect := availInExpect - 1; }
      data := data + [ch];
      AddedGood(v, Snap(), blockSize100k, ch);
    }

    /** copy_input_until_stop: the two loops of the source differ only in the count they keep. */
    method CopyInput(strm: BzStream) returns (progress: bool)
      requires Valid() && state == Input && Agrees(strm)
      modifies rl, this`data, this`availInExpect, strm`nextIn
      ensures Valid() && Agrees(strm) && data + strm.nextIn == old(data + strm.nextIn)
      ensures |strm.nextIn| <= |old(strm.nextIn)| && (progress <==> |strm.nextIn| < |old(strm.nextIn)|)
      ensures |rl.block| >= nblockMAX || strm.nextIn == []
      ensures if progress then !rl.Empty() else rl.Empty() == old(rl.Empty()) && rl.block == old(rl.block)
    {
      progress := false;
      while |rl.block| < nblockMAX && |strm.nextIn| > 0 && (mode == Running || availInExpect > 0)
        invariant Valid() && Agrees(strm) && data + strm.nextIn == old(data + strm.nextIn)
        invariant |strm.nextIn| <= |old(strm.nextIn)| && (progress <==> |strm.nextIn| < |old(strm.nextIn)|)
        invariant if progress then !rl.Empty() else rl.Empty() == old(rl.Empty()) && rl.block == old(rl.block)
        decreases |strm.nextIn|
      {
        ShiftOver(data, strm.nextIn);
        TakeByte(strm);
        progress := true;
      }
    }

    /** copy_output_until_stop. */
    method CopyOutput(strm: BzStream) returns (progress: bool)
      requires Valid() && state == Output && mode != Idle
      modifies this`stateOutPos, this`emitted, strm`availOut, strm`nextOut
      ensures Valid() && Gave(old(emitted), old(strm.nextOut), emitted, strm.nextOut)
      ensures strm.availOut == old(strm.availOut) - (|emitted| - |old(emitted)|)
      ensures (strm.availOut == 0 || stateOutPos == |w.zbits|) && (progress <==> |emitted| > |old(emitted)|)
      ensures stateOutPos == old(stateOutPos) + (|emitted| - |old(emitted)|)
    {
      progress := false;
      while strm.availOut > 0 && stateOutPos < |w.zbits|
        invariant Valid() && |emitted| >= |old(emitted)| && emitted[..|old(emitted)|] == old(emitted)
        invariant strm.nextOut == old(strm.nextOut) + emitted[|old(emitted)|..] && strm.availOut == old(strm.availOut) - (|emitted| - |old(emitted)|)
        invariant (progress <==> |emitted| > |old(emitted)|) && stateOutPos == old(stateOutPos) + (|emitted| - |old(emitted)|)
        decreases strm.availOut
      {
        GiveByte(strm, |old(emitted)|);
        progress := true;
      }
    }

    method GiveByte(strm: BzStream, ghost n: nat)
      requires Valid() && state == Output && mode != Idle && strm.availOut > 0 && stateOutPos < |w.zbits| && n <= |emitted|
      modifies this`stateOutPos, this`emitted, strm`availOut, strm`nextOut
      ensures Valid() && strm.availOut == old(strm.availOut) - 1 && |emitted| == |old(emitted)| + 1 && old(emitted) == emitted[..|old(emitted)|]
      ensures stateOutPos == old(stateOutPos) + 1
      ensures emitted[..n] == old(emitted[..n])
      ensures forall x :: old(strm.nextOut) == x + old(emitted[n..]) ==> strm.nextOut == x + emitted[n..]
    {
      ghost var v := Snap();
      var c := w.zbits[stateOutPos];
      strm.nextOut := strm.nextOut + [c];
      stateOutPos := stateOutPos + 1;
      strm.availOut := strm.availOut - 1;
      emitted := emitted + [c];
      GivenGood(v, Snap(), blockSize100k);
      assert emitted[n..] == old(emitted)[n..] + [c];
    }

    /** The end of a flush or of the stream: ends the run in progress and compresses. */
    method CompressRest()
      requires Valid() && state == Input && mode != Running && availInExpect == 0
      modifies this`book, this`combinedCRC, this`state, rl, w
      ensures Valid() && state == Output && rl.Empty() && Unfinished()
    {
      ghost var v := Snap();
      rl.Flush();
      FlushedGood(v, Snap(), blockSize100k);
      CompressBlock(mode == Finishing);
    }

    /** A full block is compressed; the run in progress is kept for the next. */
    method CompressFull()
      requires Valid() && state == Input && |rl.block| >= nblockMAX && (mode == Running || availInExpect > 0)
      modifies this`book, this`combinedCRC, this`state, w
      ensures Valid() && state == Output && !rl.Empty() && Unfinished()
    {
      CompressBlock(false);
    }

    /** The input half of a round of handle_compress. */
    method InputHalf(strm: BzStream) returns (stop: bool, progress: bool)
      requires Valid() && state == Input && Agrees(strm)
      modifies this`data, this`availInExpect, this`book, this`combinedCRC, this`state, rl, w, strm`nextIn
      ensures Valid() && Agrees(strm) && data + strm.nextIn == old(data + strm.nextIn)
      ensures |strm.nextIn| <= |old(strm.nextIn)| && (progress <==> |strm.nextIn| < |old(strm.nextIn)|)
      ensures Unfinished() && (stop ==> state == Input && mode == Running && strm.nextIn == [])
      ensures !stop ==> state == Output && (progress || rl.Empty() || |old(rl.block)| >= nblockMAX)
      ensures !progress ==> strm.nextIn == [] || |old(rl.block)| >= nblockMAX
    {
      progress := CopyInput(strm);
      stop := false;
      if mode != Running && availInExpect == 0 {
        CompressRest();
      } else if |rl.block| >= nblockMAX {
        CompressFull();
      } else {
        stop := true;
      }
    }

    /** The output half: stops while there is more to give, or when a flush or the stream is
        complete. */
    method OutputHalf(strm: BzStream) returns (stop: bool, progress: bool)
      requires Valid() && state == Output && mode != Idle && Agrees(strm)
      modifies this`stateOutPos, this`emitted, this`blockNo, this`state, rl, w, strm`availOut, strm`nextOut
      ensures Valid() && Gave(old(emitted), old(strm.nextOut), emitted, strm.nextOut)
      ensures (progress <==> |emitted| > |old(emitted)|) && (old(Unfinished()) && !progress ==> Unfinished())
      ensures rl.Empty() == old(rl.Empty())
      ensures stop && stateOutPos < |w.zbits| ==> strm.availOut == 0
      ensures stop ==> stateOutPos < |w.zbits| || (rl.Empty() && availInExpect == 0 && (if mode == Finishing then state == Output else state == Input))
      ensures !stop ==> state == Input && rl.block == [] && (mode == Running || availInExpect > 0 || !rl.Empty())
      ensures !stop && mode == Running ==> !rl.Empty()
    {
      progress := CopyOutput(strm);
      if stateOutPos < |w.zbits| {
        return true, progress;
      }
      if mode == Finishing && availInExpect == 0 && rl.Empty() {
        return true, progress;
      }
      PrepareNewBlock();
      stop := mode == Flushing && availInExpect == 0 && rl.Empty();
    }

    /** A flush or the stream is complete: all input taken, all output given. */
    predicate Complete()
      reads this, rl, w
    {
      availInExpect == 0 && rl.Empty() && stateOutPos >= |w.zbits|
    }

    /** How far from its end a call is. */
    ghost function Rank(strm: BzStream): (int, int, int)
      reads this, rl, strm
    {
      (|strm.nextIn|, if rl.Empty() then 0 else 1, if state == Input then 1 else 0)
    }

    /** One round of handle_compress. */
    method Round(strm: BzStream) returns (stop: bool, progress: bool)
      requires Valid() && mode != Idle && Agrees(strm)
      modifies this`data, this`availInExpect, this`book, this`combinedCRC, this`state, this`stateOutPos, this`emitted, this`blockNo,
               rl, w, strm
      ensures Valid() && Agrees(strm) && data + strm.nextIn == old(data + strm.nextIn) && |strm.nextIn| <= |old(strm.nextIn)|
      ensures Gave(old(emitted), old(strm.nextOut), emitted, strm.nextOut)
      ensures progress <==> |strm.nextIn| < |old(strm.nextIn)| || |emitted| > |old(emitted)|
      ensures (stop && mode != Running && Complete()) ==>
                if mode == Finishing then state == Output else state == Input
      ensures stop ==> mode == Running || Complete() || strm.availOut == 0
      ensures !stop ==> Lower(Rank(strm), old(Rank(strm)))
      ensures old(Unfinished()) && !progress ==> Unfinished()
      ensures stop && mode == Running ==> strm.nextIn == [] || strm.availOut == 0
    {
      var gave, took := false, false;
      stop := false;
      GaveNothing(emitted, strm.nextOut);
      if state == Output {
        stop, gave := OutputHalf(strm);
      }
      if !stop {
        stop, took := InputHalf(strm);
      }
      progress := gave || took;
    }

    /** handle_compress. */
    method HandleCompress(strm: BzStream) returns (progress: bool)
      requires Valid() && mode != Idle && Agrees(strm) && Unfinished()
      modifies this`data, this`availInExpect, this`book, this`combinedCRC, this`state, this`stateOutPos, this`emitted, this`blockNo,
               rl, w, strm
      ensures Valid() && Agrees(strm) && data + strm.nextIn == old(data + strm.nextIn) && |strm.nextIn| <= |old(strm.nextIn)|
      ensures Gave(old(emitted), old(strm.nextOut), emitted, strm.nextOut)
      ensures (mode != Running && Complete()) ==>
                if mode == Finishing then state == Output else state == Input
      ensures progress <==> |strm.nextIn| < |old(strm.nextIn)| || |emitted| > |old(emitted)|
      ensures mode == Running || Complete() || strm.availOut == 0
      ensures (progress || Unfinished()) && (mode == Running ==> strm.nextIn == [] || strm.availOut == 0)
    {
      progress := false;
      var stop := false;
      GaveNothing(emitted, strm.nextOut);
      while !stop
        invariant Valid() && Agrees(strm) && data + strm.nextIn == old(data + strm.nextIn) && |strm.nextIn| <= |old(strm.nextIn)|
        invariant Gave(old(emitted), old(strm.nextOut), emitted, strm.nextOut)
        invariant progress <==> |strm.nextIn| < |old(strm.nextIn)| || |emitted| > |old(emitted)|
        invariant (stop && mode != Running && Complete()) ==>
                    if mode == Finishing then state == Output else state == Input
        invariant stop ==> mode == Running || Complete() || strm.availOut == 0
        invariant (progress || Unfinished()) && (stop && mode == Running ==> strm.nextIn == [] || strm.availOut == 0)
        decreases if stop then 0 else 1, Rank(strm).0, Rank(strm).1, Rank(strm).2
      {
        ghost var e, n := emitted, strm.nextOut;
        var more;
        stop, more := Round(strm);
        GaveMore(old(emitted), old(strm.nextOut), e, n, emitted, strm.nextOut);
        progress := progress || more;
      }
    }

    /** BZ2_bzCompress. */
    method Compress(strm: BzStream, action: Action) returns (code: Code)
      requires Resting()
      modifies this, rl, w, strm
      ensures Resting() && data + strm.nextIn == old(data + strm.nextIn) && |strm.nextIn| <= |old(strm.nextIn)|
      ensures Gave(old(emitted), old(strm.nextOut), emitted, strm.nextOut)
      ensures code == StreamEnd ==> IsStream(emitted, data) && strm.nextIn == []
      ensures action == Flush && code == RunOk ==> data == book.sealed && strm.nextIn == []
      ensures code == FlushOk || code == FinishOk ==> strm.availOut == 0 && availInExpect == |strm.nextIn|
      ensures code == SequenceError <==> Misfit(old(mode), action, old(availInExpect), |old(strm.nextIn)|)
                                         || (Finishes(old(mode), action) && !Moved(strm, |old(strm.nextIn)|, |old(emitted)|))
      ensures code == ParamError <==> old(mode) == Running && (action == Other || (action == Action.Run && !Moved(strm, |old(strm.nextIn)|, |old(emitted)|)))
      ensures Fits(old(mode), action, old(availInExpect), |old(strm.nextIn)|) && strm.availOut > 0 ==>
                (action == Finish ==> code == StreamEnd) && (action == Flush ==> code == RunOk) && (action == Action.Run ==> strm.nextIn == [])
      ensures !Fits(old(mode), action, old(availInExpect), |old(strm.nextIn)|) ==> data == old(data) && emitted == old(emitted) && mode == old(mode)
      ensures (code == StreamEnd || code == FinishOk ==> action == Finish) && (code == FlushOk ==> action == Flush)
      ensures code == SequenceError || mode == ModeAfter(code)
    {
      GaveNothing(emitted, strm.nextOut);
      if mode == Idle {
        return SequenceError;
      }
      if mode == Running {
        if action == Action.Run {
          code := RunOnly(strm);
          return;
        }
        if action == Other {
          return ParamError;
        }
        Leave(strm, action);
      }
      if action != (if mode == Flushing then Flush else Finish) || availInExpect != |strm.nextIn| {
        return SequenceError;
      }
      code := Drive(strm);
    }

    /** The running case. */
    method RunOnly(strm: BzStream) returns (code: Code)
      requires Resting() && mode == Running
      modifies this, rl, w, strm
      ensures Resting() && data + strm.nextIn == old(data + strm.nextIn) && |strm.nextIn| <= |old(strm.nextIn)|
      ensures Gave(old(emitted), old(strm.nextOut), emitted, strm.nextOut) && mode == Running
      ensures code == if Moved(strm, |old(strm.nextIn)|, |old(emitted)|) then RunOk else ParamError
      ensures strm.nextIn == [] || strm.availOut == 0
    {
      RestOpen();
      var progress := HandleCompress(strm);
      RestClose();
      code := if progress then RunOk else ParamError;
    }

    /** A flush or the end of the stream begins. */
    method Leave(strm: BzStream, action: Action)
      requires Resting() && mode == Running && (action == Flush || action == Finish)
      modifies this`availInExpect, this`mode
      ensures Resting() && mode == (if action == Flush then Flushing else Finishing) && availInExpect == |strm.nextIn|
    {
      RestOpen();
      ghost var v := Snap();
      availInExpect := |strm.nextIn|;
      mode := if action == Flush then Flushing else Finishing;
      LeaveRunning(v, Snap(), blockSize100k);
      RestClose();
    }

    /** Input was taken or output given. */
    ghost predicate Moved(strm: BzStream, left: nat, given: nat)
      reads this, strm
    {
      |strm.nextIn| < left || |emitted| > given
    }

    /** The flushing and finishing cases. */
    method Drive(strm: BzStream) returns (code: Code)
      requires Resting() && (mode == Flushing || mode == Finishing) && availInExpect == |strm.nextIn|
      modifies this, rl, w, strm
      ensures Resting() && data + strm.nextIn == old(data + strm.nextIn) && |strm.nextIn| <= |old(strm.nextIn)|
      ensures Gave(old(emitted), old(strm.nextOut), emitted, strm.nextOut)
      ensures code == StreamEnd ==> IsStream(emitted, data) && strm.nextIn == []
      ensures code == RunOk ==> data == book.sealed && strm.nextIn == []
      ensures code == FlushOk || code == FinishOk ==> strm.availOut == 0 && availInExpect == |strm.nextIn|
      ensures if old(mode) == Flushing then code == RunOk || code == FlushOk else code == StreamEnd || code == FinishOk || code == SequenceError
      ensures code == SequenceError <==> old(mode) == Finishing && !Moved(strm, |old(strm.nextIn)|, |old(emitted)|)
      ensures strm.availOut > 0 ==> code == RunOk || code == StreamEnd
      ensures code == SequenceError || mode == ModeAfter(code)
    {
      RestOpen();
      var progress := HandleCompress(strm);
      if mode == Finishing && !progress {
        RestClose();
        return SequenceError;
      }
      if !Complete() {
        RestClose();
        return if mode == Flushing then FlushOk else FinishOk;
      }
      ghost var v := Snap();
      rl.EmptyPending();
      if mode == Flushing {
        rl.EmptyBlock();
        mode := Running;
        FlushDone(v, Snap(), blockSize100k);
        RestClose();
        return RunOk;
      }
      w.Aligned();
      BooksClosed(book, blockSize100k, w.flushed + w.zbits);
      mode := Idle;
      StreamDone(v, Snap(), blockSize100k);
      RestClose();
      code := StreamEnd;
    }
  }

  /** The call goes on with what the machine is doing: a flush or a finish, once begun, is to be repeated
      with all the input that is left of it. */
  ghost predicate Fits(mode: Mode, action: Action, due: nat, n: nat) {
    match mode
    case Idle => false
    case Running => action != Other
    case Flushing => action == Flush && due == n
    case Finishing => action == Finish && due == n
  }

  ghost predicate Misfit(mode: Mode, action: Action, due: nat, n: nat) { mode != Running && !Fits(mode, action, due, n) }

  ghost predicate Finishes(mode: Mode, action: Action) { action == Finish && (mode == Running || mode == Finishing) }

  /** The mode that an answer leaves. */
  ghost function ModeAfter(code: Code): Mode {
    match code
    case RunOk => Running
    case ParamError => Running
    case FlushOk => Flushing
    case FinishOk => Finishing
    case StreamEnd => Idle
    case SequenceError => Idle
  }

  ghost predicate Lower(a: (int, int, int), b: (int, int, int)) {
    a.0 < b.0 || (a.0 == b.0 && (a.1 < b.1 || (a.1 == b.1 && a.2 < b.2)))
  }

  lemma LeaveRunning(v: View, v': View, bs: nat)
    requires Good(v, bs) && v.mode == Running && v' == v.(mode := v'.mode, due := v'.due) && (v'.mode == Flushing || v'.mode == Finishing)
    ensures Good(v', bs)
  {
  }

  lemma FlushDone(v: View, v': View, bs: nat)
    requires Good(v, bs) && v.state == Input && v' == v.(mode := Running) && v.pending == [] && v.inBlock == []
    ensures Good(v', bs) && v.data == v.book.sealed
  {
    assert v.book.sealed + ([] + []) == v.book.sealed;
  }

  lemma StreamDone(v: View, v': View, bs: nat)
    requires Good(v, bs) && v.state == Output && v.book.closed && v.pos == |v.zbits| && v' == v.(mode := Idle)
    ensures Good(v', bs) && v.data == v.book.sealed && v.emitted == v.flushed + v.zbits
  {
    assert v.zbits[..v.pos] == v.zbits;
    assert v.book.sealed + [] == v.book.sealed;
  }

  lemma ShiftOver(a: seq<Byte>, b: seq<Byte>)
    requires |b| > 0
    ensures (a + [b[0]]) + b[1..] == a + b
  {
  }
}
