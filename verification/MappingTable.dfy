/** The table of bytes in use: makeMaps_e and its transmission in compress.c, its reception and
    makeMaps_d in decompress.c. */
module MappingTable {
  import opened Sequences
  import opened BitIO

  ghost function Row(inUse: seq<bool>, i: nat): seq<bool>
    requires |inUse| == 256 && i < 16
  {
    inUse[16 * i..16 * i + 16]
  }

  ghost predicate Some(row: seq<bool>) { exists k :: 0 <= k < |row| && row[k] }

  /** Which rows of sixteen hold a byte in use. */
  ghost function UsedRows(inUse: seq<bool>): (u: seq<bool>)
    requires |inUse| == 256
    ensures |u| == 16 && forall i :: 0 <= i < 16 ==> u[i] == Some(Row(inUse, i))
  {
    seq(16, i requires 0 <= i < 16 => Some(Row(inUse, i)))
  }

  /** The used rows from row i on. */
  ghost function RowBits(inUse: seq<bool>, i: nat): seq<bool>
    requires |inUse| == 256 && i <= 16
    decreases |inUse| - 16 * i
  {
    if i == 16 then []
    else (if Some(Row(inUse, i)) then Row(inUse, i) else []) + RowBits(inUse, i + 1)
  }

  ghost function MappingBits(inUse: seq<bool>): seq<bool>
    requires |inUse| == 256
  {
    UsedRows(inUse) + RowBits(inUse, 0)
  }

  method FindUsedRows(inUse: seq<bool>) returns (inUse16: seq<bool>)
    requires |inUse| == 256
    ensures inUse16 == UsedRows(inUse)
  {
    inUse16 := [];
    for i := 0 to 16
      invariant |inUse16| == i && forall k :: 0 <= k < i ==> inUse16[k] == UsedRows(inUse)[k]
    {
      var used := false;
      for j := 0 to 16
        invariant used <==> Some(Row(inUse, i)[..j])
      {
        assert Row(inUse, i)[..j + 1] == Row(inUse, i)[..j] + [inUse[16 * i + j]];
        if inUse[i * 16 + j] {
          used := true;
          assert Row(inUse, i)[..j + 1][j];
        }
      }
      assert Row(inUse, i)[..16] == Row(inUse, i);
      inUse16 := inUse16 + [used];
    }
  }

  /** Writes bits one by one. */
  method PutBits(w: BitWriter, bits: seq<bool>)
    requires w.Valid()
    modifies w
    ensures w.Appended(bits)
  {
    for j := 0 to |bits|
      invariant w.Appended(bits[..j])
    {
      w.PutBit(bits[j]);
      assert bits[..j + 1] == bits[..j] + [bits[j]];
    }
    assert bits[..|bits|] == bits;
  }

  method WriteRows(w: BitWriter, inUse: seq<bool>, inUse16: seq<bool>)
    requires w.Valid() && |inUse| == 256 && inUse16 == UsedRows(inUse)
    modifies w
    ensures w.Appended(RowBits(inUse, 0))
  {
    ghost var start := w.written;
    for i := 0 to 16
      invariant w.Valid() && w.flushed == old(w.flushed)
      invariant w.written + RowBits(inUse, i) == start + RowBits(inUse, 0)
    {
      if inUse16[i] {
        Assoc(w.written, Row(inUse, i), RowBits(inUse, i + 1));
        PutBits(w, inUse[16 * i..16 * i + 16]);
      } else {
        assert RowBits(inUse, i) == RowBits(inUse, i + 1);
      }
    }
    assert w.written + [] == w.written;
  }

  /** Transmits the mapping table. */
  method WriteMapping(w: BitWriter, inUse: seq<bool>)
    requires w.Valid() && |inUse| == 256
    modifies w
    ensures w.Appended(MappingBits(inUse))
  {
    var inUse16 := FindUsedRows(inUse);
    PutBits(w, inUse16);
    WriteRows(w, inUse, inUse16);
    Assoc(old(w.written), inUse16, RowBits(inUse, 0));
  }

  /** Reads n bits one by one; expected to be want followed by tail. */
  method ReadFlags(r: BitReader, n: nat, ghost want: seq<bool>, ghost tail: seq<bool>) returns (f: Fetch<seq<bool>>)
    requires r.Valid()
    modifies r
    ensures r.Valid() && |r.rest| <= |old(r.rest)|
    ensures f.Got? ==> |f.value| == n
    ensures |want| == n && old(r.rest) == want + tail ==> f == Got(want) && r.rest == tail
  {
    var flags: seq<bool> := [];
    ghost var ok := |want| == n && r.rest == want + tail;
    for i := 0 to n
      invariant r.Valid() && |flags| == i && |r.rest| <= |old(r.rest)|
      invariant ok ==> flags == want[..i] && r.rest == want[i..] + tail
    {
      var uc :- r.GetBit();
      flags := flags + [uc == 1];
    }
    assert ok ==> want[..n] == want && want[n..] + tail == tail;
    f := Got(flags);
  }

  /** Receives the mapping table. */
  method ReadMapping(r: BitReader, ghost want: seq<bool>, ghost tail: seq<bool>) returns (m: Fetch<seq<bool>>)
    requires r.Valid() && |want| == 256
    modifies r
    ensures r.Valid() && |r.rest| <= |old(r.rest)|
    ensures m.Got? ==> |m.value| == 256
    ensures old(r.rest) == MappingBits(want) + tail ==> m == Got(want) && r.rest == tail
  {
    ghost var ok := r.rest == MappingBits(want) + tail;
    assert ok ==> r.rest == UsedRows(want) + (RowBits(want, 0) + tail);
    var inUse16 :- ReadFlags(r, 16, UsedRows(want), RowBits(want, 0) + tail);
    var inUse := seq(256, _ => false);
    for i := 0 to 16
      invariant r.Valid() && |inUse| == 256 && |r.rest| <= |old(r.rest)|
      invariant ok ==> inUse16 == UsedRows(want) && r.rest == RowBits(want, i) + tail
      invariant forall k :: 16 * i <= k < 256 ==> !inUse[k]
      invariant ok ==> forall k :: 0 <= k < 16 * i ==> inUse[k] == want[k]
    {
      ghost var before := inUse;
      var row := seq(16, _ => false);
      if inUse16[i] {
        Assoc(Row(want, i), RowBits(want, i + 1), tail);
        row :- ReadFlags(r, 16, Row(want, i), RowBits(want, i + 1) + tail);
      }
      RowRead(want, i, row, ok);
      inUse := SetRow(inUse, i, row);
    }
    assert ok ==> inUse == want && RowBits(want, 16) + tail == tail;
    m := Got(inUse);
  }

  function SetRow(inUse: seq<bool>, i: nat, row: seq<bool>): (r: seq<bool>)
    requires |inUse| == 256 && i < 16 && |row| == 16
    ensures |r| == 256
    ensures forall k :: 0 <= k < 256 ==> r[k] == if 16 * i <= k < 16 * i + 16 then row[k - 16 * i] else inUse[k]
  {
    inUse[..16 * i] + row + inUse[16 * i + 16..]
  }

  /** A row that is not sent is empty. */
  lemma RowRead(want: seq<bool>, i: nat, row: seq<bool>, ok: bool)
    requires |want| == 256 && i < 16 && |row| == 16
    requires ok ==> row == Row(want, i) || (!Some(Row(want, i)) && forall k :: 0 <= k < 16 ==> !row[k])
    ensures ok ==> forall k :: 16 * i <= k < 16 * i + 16 ==> row[k - 16 * i] == want[k]
  {
    forall k | ok && 16 * i <= k < 16 * i + 16 ensures row[k - 16 * i] == want[k] {
      assert want[k] == Row(want, i)[k - 16 * i];
    }
  }

  // ---- Numbering the bytes in use ----

  /** The bytes in use below c, in order. */
  function Used(inUse: seq<bool>, c: nat): (s: seq<int>)
    requires c <= |inUse|
    ensures |s| <= c
  {
    if c == 0 then [] else if inUse[c - 1] then Used(inUse, c - 1) + [c - 1] else Used(inUse, c - 1)
  }

  lemma {:induction false} UsedAt(inUse: seq<bool>, c: nat, d: nat)
    requires c < d <= |inUse| && inUse[c]
    ensures |Used(inUse, c)| < |Used(inUse, d)| && Used(inUse, d)[|Used(inUse, c)|] == c
  {
    if c < d - 1 { UsedAt(inUse, c, d - 1); }
  }

  lemma {:induction false} UsedInRange(inUse: seq<bool>, c: nat)
    requires c <= |inUse|
    ensures forall k :: 0 <= k < |Used(inUse, c)| ==> 0 <= Used(inUse, c)[k] < c
  {
    if c > 0 { UsedInRange(inUse, c - 1); }
  }

  /** makeMaps_e. */
  method MakeMapsE(inUse: seq<bool>) returns (unseqToSeq: seq<int>, nInUse: nat)
    requires |inUse| == 256
    ensures |unseqToSeq| == 256 && nInUse == |Used(inUse, 256)|
    ensures forall c: nat :: c < 256 && inUse[c] ==> unseqToSeq[c] == |Used(inUse, c)|
  {
    unseqToSeq := seq(256, _ => 0);
    nInUse := 0;
    for i := 0 to 256
      invariant |unseqToSeq| == 256 && nInUse == |Used(inUse, i)|
      invariant forall c: nat :: c < i && inUse[c] ==> unseqToSeq[c] == |Used(inUse, c)|
    {
      if inUse[i] {
        unseqToSeq := unseqToSeq[i := nInUse];
        nInUse := nInUse + 1;
      }
    }
  }

  /** makeMaps_d. */
  method MakeMapsD(inUse: seq<bool>) returns (seqToUnseq: seq<int>, nInUse: nat)
    requires |inUse| == 256
    ensures seqToUnseq == Used(inUse, 256) && nInUse == |seqToUnseq|
  {
    seqToUnseq := [];
    nInUse := 0;
    for i := 0 to 256
      invariant seqToUnseq == Used(inUse, i) && nInUse == |seqToUnseq|
    {
      if inUse[i] {
        seqToUnseq := seqToUnseq + [i];
        nInUse := nInUse + 1;
      }
    }
  }
}
