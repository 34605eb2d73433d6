/** The code lengths of the coding tables, sent as differences (sendMTFValues in compress.c, the
    coding-table part of BZ2_decompress). */
module CodingTables {
  import opened Sequences
  import opened Bits
  import opened BitIO
  import opened CanonicalCode
  import opened SelectorList

  function Distance(x: int, y: int): nat { if x < y then y - x else x - y }

  /** The steps from one length to another, and the end mark. */
  function Steps(curr: int, len: int): seq<bool>
    decreases Distance(curr, len)
  {
    if curr < len then [true, false] + Steps(curr + 1, len)
    else if curr > len then [true, true] + Steps(curr - 1, len)
    else [false]
  }

  function LengthBits(curr: int, len: seq<int>): seq<bool>
    decreases |len|
  {
    if |len| == 0 then [] else Steps(curr, len[0]) + LengthBits(len[0], len[1..])
  }

  function TableBits(len: seq<int>): seq<bool>
    requires |len| > 0 && len[0] >= 0
  {
    ToBits(len[0], 5) + LengthBits(len[0], len)
  }

  /** Tables of lengths for one alphabet, as a decoder accepts them. */
  ghost predicate Tables(lens: seq<seq<int>>, alphaSize: nat) {
    forall t :: 0 <= t < |lens| ==> |lens[t]| == alphaSize && Between(lens[t], 1, LongestCode)
  }

  ghost function TablesBits(lens: seq<seq<int>>, alphaSize: nat, t: nat): seq<bool>
    requires Tables(lens, alphaSize) && alphaSize > 0 && t <= |lens|
    decreases |lens| - t
  {
    if t == |lens| then [] else TableBits(lens[t]) + TablesBits(lens, alphaSize, t + 1)
  }

  // ---- Writing ----

  method WriteSteps(w: BitWriter, curr0: int, len: int)
    requires w.Valid()
    modifies w
    ensures w.Appended(Steps(curr0, len))
  {
    var curr := curr0;
    ghost var start := w.written;
    TwoBits();
    while curr < len
      invariant w.Valid() && w.flushed == old(w.flushed) && (curr0 <= len ==> curr <= len) && (curr0 > len ==> curr == curr0)
      invariant w.written + Steps(curr, len) == start + Steps(curr0, len)
    {
      Assoc(w.written, [true, false], Steps(curr + 1, len));
      w.Write(2, 2);
      curr := curr + 1;
    }
    while curr > len
      invariant w.Valid() && w.flushed == old(w.flushed) && curr >= len
      invariant w.written + Steps(curr, len) == start + Steps(curr0, len)
    {
      Assoc(w.written, [true, true], Steps(curr - 1, len));
      w.Write(2, 3);
      curr := curr - 1;
    }
    w.PutBit(false);
  }

  lemma TwoBits()
    ensures Pow2(2) == 4 && ToBits(2, 2) == [true, false] && ToBits(3, 2) == [true, true]
  {
    assert Pow2(1) == 2 && Pow2(0) == 1;
    assert ToBits(2, 2)[0] && !ToBits(2, 2)[1];
    assert ToBits(3, 2)[0] && ToBits(3, 2)[1];
  }

  method WriteTable(w: BitWriter, len: seq<int>)
    requires w.Valid() && |len| > 0 && Between(len, 1, LongestCode)
    modifies w
    ensures w.Appended(TableBits(len))
  {
    var curr := len[0];
    SmallWidths();
    w.Write(5, curr);
    ghost var start := w.written;
    assert len[0..] == len;
    for i := 0 to |len|
      invariant w.Valid() && w.flushed == old(w.flushed)
      invariant w.written + LengthBits(curr, len[i..]) == start + LengthBits(len[0], len)
    {
      assert len[i..][1..] == len[i + 1..];
      Assoc(w.written, Steps(curr, len[i]), LengthBits(len[i], len[i + 1..]));
      WriteSteps(w, curr, len[i]);
      curr := len[i];
    }
    assert w.written + [] == w.written;
    Assoc(old(w.written), ToBits(len[0], 5), LengthBits(len[0], len));
  }

  method WriteTables(w: BitWriter, lens: seq<seq<int>>, alphaSize: nat)
    requires w.Valid() && Tables(lens, alphaSize) && alphaSize > 0
    modifies w
    ensures w.Appended(TablesBits(lens, alphaSize, 0))
  {
    ghost var start := w.written;
    for t := 0 to |lens|
      invariant w.Valid() && w.flushed == old(w.flushed)
      invariant w.written + TablesBits(lens, alphaSize, t) == start + TablesBits(lens, alphaSize, 0)
    {
      Assoc(w.written, TableBits(lens[t]), TablesBits(lens, alphaSize, t + 1));
      WriteTable(w, lens[t]);
    }
    assert w.written + [] == w.written;
  }

  // ---- Reading ----

  lemma StepsHead(curr: int, len: int, tail: seq<bool>)
    ensures var z := Steps(curr, len) + tail;
      if curr == len then z[0] == false && z[1..] == tail
      else z[0] && z[1] == (curr > len) && z[2..] == Steps(if curr < len then curr + 1 else curr - 1, len) + tail
  {
  }

  /** Reads one length, starting from the last. */
  method ReadSteps(r: BitReader, curr0: int, ghost want: int, ghost tail: seq<bool>) returns (len: Fetch<int>)
    requires r.Valid()
    modifies r
    ensures r.Valid() && |r.rest| <= |old(r.rest)|
    ensures len.Got? ==> 1 <= len.value <= LongestCode
    ensures 1 <= curr0 <= LongestCode && 1 <= want <= LongestCode && old(r.rest) == Steps(curr0, want) + tail
      ==> len == Got(want) && r.rest == tail
  {
    var curr := curr0;
    ghost var ok := 1 <= curr0 <= LongestCode && 1 <= want <= LongestCode && r.rest == Steps(curr0, want) + tail;
    while true
      invariant r.Valid() && |r.rest| <= |old(r.rest)|
      invariant ok ==> 1 <= curr <= LongestCode && r.rest == Steps(curr, want) + tail
      decreases |r.rest|
    {
      StepsHead(curr, want, tail);
      if curr < 1 || curr > LongestCode {
        return DataError;
      }
      var stop :- r.GetBit();
      if stop == 0 {
        break;
      }
      var down :- r.GetBit();
      curr := if down == 0 then curr + 1 else curr - 1;
    }
    len := Got(curr);
  }

  method ReadTable(r: BitReader, alphaSize: nat, ghost want: seq<int>, ghost tail: seq<bool>) returns (len: Fetch<seq<int>>)
    requires r.Valid() && alphaSize > 0
    modifies r
    ensures r.Valid() && |r.rest| <= |old(r.rest)|
    ensures len.Got? ==> |len.value| == alphaSize && Between(len.value, 1, LongestCode)
    ensures |want| == alphaSize && Between(want, 1, LongestCode) && old(r.rest) == TableBits(want) + tail
      ==> len == Got(want) && r.rest == tail
  {
    ghost var ok := |want| == alphaSize && Between(want, 1, LongestCode) && r.rest == TableBits(want) + tail;
    SmallWidths();
    ghost var first, bits := if ok then want[0] else 0, if ok then LengthBits(want[0], want) + tail else [];
    if ok { Assoc(ToBits(want[0], 5), LengthBits(want[0], want), tail); }
    var curr :- r.GetNumber(5, first, bits);
    len := ReadLengths(r, alphaSize, curr, want, tail);
  }

  method ReadLengths(r: BitReader, alphaSize: nat, curr0: int, ghost want: seq<int>, ghost tail: seq<bool>) returns (len: Fetch<seq<int>>)
    requires r.Valid() && alphaSize > 0
    modifies r
    ensures r.Valid() && |r.rest| <= |old(r.rest)|
    ensures len.Got? ==> |len.value| == alphaSize && Between(len.value, 1, LongestCode)
    ensures (|want| == alphaSize && Between(want, 1, LongestCode) && 1 <= curr0 <= LongestCode
             && old(r.rest) == LengthBits(curr0, want) + tail) ==> len == Got(want) && r.rest == tail
  {
    ghost var ok := |want| == alphaSize && Between(want, 1, LongestCode) && 1 <= curr0 <= LongestCode
      && r.rest == LengthBits(curr0, want) + tail;
    var curr := curr0;
    var s: seq<int> := [];
    assert want[0..] == want;
    for i := 0 to alphaSize
      invariant r.Valid() && |r.rest| <= |old(r.rest)| && |s| == i && Between(s, 1, LongestCode)
      invariant ok ==> s == want[..i] && 1 <= curr <= LongestCode && r.rest == LengthBits(curr, want[i..]) + tail
    {
      ghost var next, after := 0, [];
      if ok {
        assert want[i..][1..] == want[i + 1..];
        Assoc(Steps(curr, want[i]), LengthBits(want[i], want[i + 1..]), tail);
        next, after := want[i], LengthBits(want[i], want[i + 1..]) + tail;
      }
      curr :- ReadSteps(r, curr, next, after);
      s := s + [curr];
    }
    assert ok ==> want[..alphaSize] == want && LengthBits(curr, want[alphaSize..]) + tail == tail;
    len := Got(s);
  }

  method ReadTables(r: BitReader, nGroups: nat, alphaSize: nat, ghost want: seq<seq<int>>, ghost tail: seq<bool>)
      returns (lens: Fetch<seq<seq<int>>>)
    requires r.Valid() && alphaSize > 0
    modifies r
    ensures r.Valid() && |r.rest| <= |old(r.rest)|
    ensures lens.Got? ==> |lens.value| == nGroups && Tables(lens.value, alphaSize)
    ensures |want| == nGroups && Tables(want, alphaSize) && old(r.rest) == TablesBits(want, alphaSize, 0) + tail
      ==> lens == Got(want) && r.rest == tail
  {
    ghost var ok := |want| == nGroups && Tables(want, alphaSize) && r.rest == TablesBits(want, alphaSize, 0) + tail;
    var s: seq<seq<int>> := [];
    for t := 0 to nGroups
      invariant r.Valid() && |r.rest| <= |old(r.rest)| && |s| == t && Tables(s, alphaSize)
      invariant ok ==> s == want[..t] && r.rest == TablesBits(want, alphaSize, t) + tail
    {
      ghost var next, after := [], [];
      if ok {
        Assoc(TableBits(want[t]), TablesBits(want, alphaSize, t + 1), tail);
        next, after := want[t], TablesBits(want, alphaSize, t + 1) + tail;
      }
      var len :- ReadTable(r, alphaSize, next, after);
      s := s + [len];
    }
    assert ok ==> want[..nGroups] == want && TablesBits(want, alphaSize, nGroups) + tail == tail;
    lens := Got(s);
  }
}
