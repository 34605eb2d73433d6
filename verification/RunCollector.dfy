/** The run-length front end of the compressor: add_pair_to_block, flush_RL and
    ADD_CHAR_TO_BLOCK of bzlib.c over the block, its checksum and its table of bytes in use. */
module RunCollector {
  import opened Sequences
  import opened RunLength
  import opened Crc
  import opened BlockParts

  /** A definition guarded by "for every u with UnfoldRuns(u)" stays folded for the verifier
      until UnfoldRuns is mentioned. */
  ghost predicate UnfoldRuns(u: int) { true }

  /** The block, its marks and its checksum are those of the runs. */
  ghost predicate Holds(block: seq<Byte>, inUse: seq<bool>, crc: nat, runs: seq<Run>, bytes: seq<Byte>) {
    forall u {:trigger UnfoldRuns(u)} :: UnfoldRuns(u) ==>
      && WellFormed(runs) && block == Pairs(runs) && bytes == RunBytes(runs)
      && inUse == InUse(block) && crc == CrcBytes(CrcInit, bytes)
  }

  /** The run in progress may follow the runs. */
  ghost predicate Follows(runs: seq<Run>, r: Run) {
    1 <= r.len <= 255 && (|runs| > 0 ==> runs[|runs| - 1].ch != r.ch || runs[|runs| - 1].len == 255)
  }

  lemma HoldsNothing()
    ensures Holds([], seq(256, _ => false), CrcInit, [], [])
  {
    assert seq(256, _ => false) == InUse([]);
  }

  /** The marks after more bytes. */
  lemma {:induction false} InUseMore(b: seq<Byte>, c: seq<Byte>, x: int)
    ensures Count(b + c, x) > 0 <==> Count(b, x) > 0 || Count(c, x) > 0
  {
    if |c| == 0 {
      assert b + c == b;
    } else {
      InUseMore(b, c[..|c| - 1], x);
      assert (b + c)[..|b + c| - 1] == b + c[..|c| - 1];
    }
  }

  lemma {:induction false} RepUses(ch: Byte, n: nat, x: int)
    ensures Count(Rep(ch, n), x) > 0 <==> n > 0 && x == ch
  {
    if n > 0 {
      RepUses(ch, n - 1, x);
      assert Rep(ch, n)[..n - 1] == Rep(ch, n - 1);
    }
  }

  lemma PairUses(r: Run, x: int)
    requires 1 <= r.len <= 255
    ensures Count(Pair(r), x) > 0 <==> x == r.ch || (r.len >= 4 && x == r.len - 4)
  {
    if r.len < 4 {
      RepUses(r.ch, r.len, x);
    } else {
      RepUses(r.ch, 4, x);
      assert Pair(r)[..4] == Rep(r.ch, 4);
    }
  }

  /** The marks add_pair_to_block sets. */
  function Marked(inUse: seq<bool>, r: Run): seq<bool>
    requires |inUse| == 256 && 1 <= r.len <= 255
  {
    if r.len < 4 then inUse[r.ch := true] else inUse[r.ch := true][r.len - 4 := true]
  }

  lemma MarkedPair(b: seq<Byte>, r: Run)
    requires 1 <= r.len <= 255
    ensures Marked(InUse(b), r) == InUse(b + Pair(r))
  {
    forall x | 0 <= x < 256 ensures Marked(InUse(b), r)[x] == InUse(b + Pair(r))[x] {
      InUseMore(b, Pair(r), x);
      PairUses(r, x);
    }
  }

  lemma AppendRun(runs: seq<Run>, r: Run)
    requires WellFormed(runs) && Follows(runs, r)
    ensures WellFormed(runs + [r]) && Pairs(runs + [r]) == Pairs(runs) + Pair(r)
    ensures RunBytes(runs + [r]) == RunBytes(runs) + Rep(r.ch, r.len)
  {
    assert (runs + [r])[..|runs|] == runs;
  }

  lemma HoldsMore(block: seq<Byte>, inUse: seq<bool>, crc: nat, runs: seq<Run>, bytes: seq<Byte>, r: Run)
    requires Holds(block, inUse, crc, runs, bytes) && Follows(runs, r)
    ensures |inUse| == 256
    ensures Holds(block + Pair(r), Marked(inUse, r), CrcBytes(crc, Rep(r.ch, r.len)), runs + [r], bytes + Rep(r.ch, r.len))
  {
    assert UnfoldRuns(0);
    AppendRun(runs, r);
    MarkedPair(block, r);
    CrcConcat(CrcInit, RunBytes(runs), Rep(r.ch, r.len));
  }

  /** Updates a checksum for a run. */
  method CrcRun(crc0: nat, ch: Byte, n: nat) returns (crc: nat)
    ensures crc == CrcBytes(crc0, Rep(ch, n))
  {
    crc := crc0;
    for i := 0 to n
      invariant crc == CrcBytes(crc0, Rep(ch, i))
    {
      CrcAppend(crc0, Rep(ch, i), ch);
      assert Rep(ch, i) + [ch] == Rep(ch, i + 1);
      crc := CrcUpdate(crc, ch);
    }
  }

  /** Writes the bytes for a run. */
  method PutRun(block0: seq<Byte>, ch: Byte, len: nat) returns (block: seq<Byte>)
    requires 1 <= len <= 255
    ensures block == block0 + Pair(Run(ch, len))
  {
    block := block0;
    if len < 4 {
      for n := 0 to len
        invariant block == block0 + Rep(ch, n)
      {
        block := block + [ch];
        assert Rep(ch, n + 1) == Rep(ch, n) + [ch];
      }
    } else {
      block := block + [ch, ch, ch, ch] + [len - 4];
      assert [ch, ch, ch, ch] == Rep(ch, 4);
    }
  }

  /** The work of add_pair_to_block. */
  method Paired(block: seq<Byte>, inUse: seq<bool>, crc: nat, ch: Byte, len: nat, ghost runs: seq<Run>, ghost bytes: seq<Byte>)
      returns (block': seq<Byte>, inUse': seq<bool>, crc': nat)
    requires Holds(block, inUse, crc, runs, bytes) && Follows(runs, Run(ch, len)) && |inUse| == 256
    ensures Holds(block', inUse', crc', runs + [Run(ch, len)], bytes + Rep(ch, len)) && |inUse'| == 256
    ensures |block| < |block'| <= |block| + 5
  {
    HoldsMore(block, inUse, crc, runs, bytes, Run(ch, len));
    crc' := CrcRun(crc, ch, len);
    inUse' := inUse[ch := true];
    if len >= 4 { inUse' := inUse'[len - 4 := true]; }
    block' := PutRun(block, ch, len);
  }

  /** The same for a run of one, without the loop. */
  method PairedSingle(block: seq<Byte>, inUse: seq<bool>, crc: nat, ch: Byte, ghost runs: seq<Run>, ghost bytes: seq<Byte>)
      returns (block': seq<Byte>, inUse': seq<bool>, crc': nat)
    requires Holds(block, inUse, crc, runs, bytes) && Follows(runs, Run(ch, 1)) && |inUse| == 256
    ensures Holds(block', inUse', crc', runs + [Run(ch, 1)], bytes + Rep(ch, 1)) && |inUse'| == 256
    ensures |block| < |block'| <= |block| + 5
  {
    HoldsMore(block, inUse, crc, runs, bytes, Run(ch, 1));
    CrcAppend(crc, [], ch);
    assert [] + [ch] == Rep(ch, 1);
    crc' := CrcUpdate(crc, ch);
    inUse' := inUse[ch := true];
    block' := block + [ch];
  }

  /** Likewise for UnfoldCollector. */
  ghost predicate UnfoldCollector(u: int) { true }

  class Collector {
    var block: seq<Byte>
    var inUse: seq<bool>
    var blockCRC: nat
    var stateInCh: int
    var stateInLen: nat
    /** The runs in the block, their bytes, and the bytes of the run in progress. */
    ghost var runs: seq<Run>
    ghost var inBlock: seq<Byte>
    ghost var pending: seq<Byte>

    ghost predicate Valid()
      reads this
    {
      forall u {:trigger UnfoldCollector(u)} :: UnfoldCollector(u) ==> State()
    }

    ghost predicate State()
      reads this
    {
      && Holds(block, inUse, blockCRC, runs, inBlock) && |inUse| == 256 && 0 <= stateInCh <= 256
      && (if stateInCh == 256 then stateInLen == 0 && pending == []
          else Follows(runs, Run(stateInCh, stateInLen)) && pending == Rep(stateInCh, stateInLen))
      && (|runs| == 0 <==> |block| == 0)
    }

    /** isempty_RL. */
    predicate Empty()
      reads this
    {
      !(stateInCh < 256 && stateInLen > 0)
    }

    /** The bytes of the block and of the run in progress. */
    ghost function Bytes(): seq<Byte>
      reads this
    {
      inBlock + pending
    }

    constructor ()
      ensures Valid() && Bytes() == [] && Empty() && block == []
    {
      block, inUse, blockCRC, runs, inBlock, pending := [], seq(256, _ => false), CrcInit, [], [], [];
      stateInCh, stateInLen := 256, 0;
      HoldsNothing();
    }

    lemma BlockContents()
      requires Valid()
      ensures WellFormed(runs) && block == Pairs(runs) && inBlock == RunBytes(runs) && inUse == InUse(block)
      ensures blockCRC == CrcBytes(CrcInit, inBlock)
    {
      assert UnfoldCollector(0);
      assert UnfoldRuns(0);
    }

    lemma EmptyPending()
      requires Valid() && Empty()
      ensures pending == []
    {
      assert UnfoldCollector(0);
    }

    lemma EmptyBlock()
      requires Valid() && |block| == 0
      ensures inBlock == []
    {
      assert UnfoldCollector(0);
      assert UnfoldRuns(0);
    }

    /** add_pair_to_block. */
    method AddPair()
      requires State() && stateInCh < 256
      modifies this`block, this`inUse, this`blockCRC, this`runs, this`inBlock
      ensures Holds(block, inUse, blockCRC, runs, inBlock) && |inUse| == 256
      ensures runs == old(runs) + [Run(stateInCh, stateInLen)] && inBlock == old(Bytes())
      ensures |old(block)| < |block| <= |old(block)| + 5
    {
      block, inUse, blockCRC := Paired(block, inUse, blockCRC, stateInCh, stateInLen, runs, inBlock);
      runs, inBlock := runs + [Run(stateInCh, stateInLen)], inBlock + pending;
    }

    /** flush_RL. */
    method Flush()
      requires Valid()
      modifies this
      ensures Valid() && Empty() && pending == [] && inBlock == old(Bytes()) && |block| <= |old(block)| + 5
    {
      assert UnfoldCollector(0);
      if stateInCh < 256 { AddPair(); }
      stateInCh, stateInLen, pending := 256, 0, [];
      assert old(inBlock) + [] == old(inBlock);
    }

    /** The common case of ADD_CHAR_TO_BLOCK: a run of one ends. */
    method EndSingle(ch: Byte)
      requires State() && ch != stateInCh && stateInLen == 1
      modifies this
      ensures State() && !Empty() && Bytes() == old(Bytes()) + Rep(ch, 1) && |block| <= |old(block)| + 5
    {
      block, inUse, blockCRC := PairedSingle(block, inUse, blockCRC, stateInCh, runs, inBlock);
      runs, inBlock := runs + [Run(stateInCh, 1)], inBlock + pending;
      stateInCh, pending := ch, Rep(ch, 1);
    }

    /** ADD_CHAR_TO_BLOCK. */
    method AddChar(ch: Byte)
      requires Valid() && (Empty() ==> |block| == 0)
      modifies this
      ensures Valid() && !Empty() && Bytes() == old(Bytes()) + [ch] && |block| <= |old(block)| + 5
    {
      assert UnfoldCollector(0);
      if ch != stateInCh && stateInLen == 1 {
        EndSingle(ch);
        assert Rep(ch, 1) == [ch];
      } else if ch != stateInCh || stateInLen == 255 {
        if stateInCh < 256 { AddPair(); }
        stateInCh, stateInLen, pending := ch, 1, [ch];
        assert Rep(ch, 1) == [ch];
      } else {
        assert Rep(ch, stateInLen) + [ch] == Rep(ch, stateInLen + 1);
        stateInLen, pending := stateInLen + 1, pending + [ch];
        Assoc(inBlock, old(pending), [ch]);
      }
    }

    /** The part of prepare_new_block that empties the block. */
    method StartBlock()
      requires Valid()
      modifies this`block, this`inUse, this`blockCRC, this`runs, this`inBlock
      ensures Valid() && block == [] && inBlock == []
    {
      assert UnfoldCollector(0);
      block, inUse, blockCRC, runs, inBlock := [], seq(256, _ => false), CrcInit, [], [];
      HoldsNothing();
    }
  }
}
