/** Compression and decompression together: what comes out is what went in. */
module RoundTrip {
  import opened Sequences
  import opened BitIO
  import opened StreamFormat
  import Compressor
  import Decompressor

  /** One call of BZ2_bzCompress: its input, the room for its output, and the action. */
  datatype Call = Call(input: seq<Byte>, room: nat, action: Compressor.Action)

  predicate Ended(codes: seq<Compressor.Code>) { |codes| > 0 && codes[|codes| - 1] == Compressor.StreamEnd }

  /** One call: what it took, what it gave, and the room it left. */
  method OneCall(e: Compressor.EState, call: Call) returns (code: Compressor.Code, took: seq<Byte>, gave: seq<Byte>, left: nat)
    requires e.Resting()
    modifies e, e.rl, e.w
    ensures e.Resting() && e.data == old(e.data) + took && e.emitted == old(e.emitted) + gave && took <= call.input
    ensures code == Compressor.StreamEnd ==> IsStream(e.emitted, e.data) && took == call.input
    ensures code == Compressor.SequenceError || e.mode == Compressor.ModeAfter(code)
    ensures old(e.mode) == Compressor.Running && left > 0 ==>
              && (call.action == Compressor.Finish ==> code == Compressor.StreamEnd)
              && (call.action == Compressor.Action.Run ==> took == call.input && e.mode == Compressor.Running)
  {
    var strm := new Compressor.BzStream(call.input, call.room);
    code := e.Compress(strm, call.action);
    TakenPart(old(e.data), call.input, e.data, strm.nextIn);
    GivenPart(old(e.emitted), e.emitted, strm.nextOut);
    took, gave, left := call.input[..|call.input| - |strm.nextIn|], strm.nextOut, strm.availOut;
  }

  /** The usual way to compress: run calls, and one that finishes. */
  ghost predicate RunThenFinish(calls: seq<Call>) {
    && |calls| > 0 && calls[|calls| - 1].action == Compressor.Finish
    && forall k :: 0 <= k < |calls| - 1 ==> calls[k].action == Compressor.Action.Run
  }

  ghost function AllInput(calls: seq<Call>): seq<Byte> {
    if |calls| == 0 then [] else AllInput(calls[..|calls| - 1]) + calls[|calls| - 1].input
  }

  ghost predicate Spared(lefts: seq<nat>) { forall k :: 0 <= k < |lefts| ==> lefts[k] > 0 }

  /** Makes the calls in turn, until one answers BZ_STREAM_END. Whenever one does, the output of all
      calls is a stream for the input they took. Run calls and a finish do end, and take all input, if
      none of them uses up its room. */
  method CompressCalls(calls: seq<Call>, blockSize100k: nat)
      returns (codes: seq<Compressor.Code>, lefts: seq<nat>, taken: seq<Byte>, zipped: seq<Byte>)
    requires 1 <= blockSize100k <= 9
    ensures |lefts| == |codes| && (|codes| == |calls| || Ended(codes))
    ensures Ended(codes) ==> IsStream(zipped, taken)
    ensures RunThenFinish(calls) && Spared(lefts) ==> |codes| == |calls| && Ended(codes) && taken == AllInput(calls)
  {
    var e := new Compressor.EState(blockSize100k);
    taken, zipped, codes, lefts := [], [], [], [];
    for k := 0 to |calls|
      invariant e.Resting() && fresh(e) && fresh(e.rl) && fresh(e.w) && e.data == taken && e.emitted == zipped
      invariant |codes| == |lefts| == k && !Ended(codes)
      invariant RunThenFinish(calls) && Spared(lefts) && k < |calls| ==> e.mode == Compressor.Running && taken == AllInput(calls[..k])
      invariant k == |calls| ==> !RunThenFinish(calls) || !Spared(lefts)
    {
      var code, took, gave, left := OneCall(e, calls[k]);
      taken, zipped := taken + took, zipped + gave;
      ghost var was := lefts;
      codes, lefts := codes + [code], lefts + [left];
      SparedMore(was, left);
      assert calls[..k + 1][..k] == calls[..k];
      if code == Compressor.StreamEnd {
        assert k + 1 == |calls| ==> calls[..k + 1] == calls;
        return;
      }
    }
  }

  lemma SparedMore(lefts: seq<nat>, left: nat)
    ensures Spared(lefts + [left]) <==> Spared(lefts) && left > 0
  {
    var more := lefts + [left];
    if Spared(more) {
      assert more[|lefts|] == left;
      forall k | 0 <= k < |lefts| ensures lefts[k] > 0 { assert more[k] == lefts[k]; }
    }
  }

  lemma TakenPart(d: seq<Byte>, input: seq<Byte>, d': seq<Byte>, rest: seq<Byte>)
    requires d' + rest == d + input && |rest| <= |input|
    ensures d' == d + input[..|input| - |rest|]
  {
    assert d' == (d' + rest)[..|d'|];
  }

  lemma GivenPart(e: seq<Byte>, e': seq<Byte>, n: seq<Byte>)
    requires Compressor.Gave(e, [], e', n)
    ensures e' == e + n
  {
    assert e' == e'[..|e|] + e'[|e|..];
  }

  /** s cut into pieces of these sizes, as far as it goes, and the rest. */
  function CutUp(s: seq<Byte>, sizes: seq<nat>): (pieces: seq<seq<Byte>>)
    ensures Joined(pieces) == s
    decreases |sizes|
  {
    if |sizes| == 0 then
      assert [s][1..] == [] && s + [] == s;
      [s]
    else
      var n := if sizes[0] <= |s| then sizes[0] else |s|;
      var rest := CutUp(s[n..], sizes[1..]);
      assert ([s[..n]] + rest)[1..] == rest && s[..n] + s[n..] == s;
      [s[..n]] + rest
  }

  /** Decompresses input that comes in these pieces, in calls with these rooms, zero among them, until one answers BZ_STREAM_END. Every call
      before that fills its room; at the end the data is out. */
  method DecompressCalls(pieces: seq<seq<Byte>>, rooms: seq<nat>, ghost data: seq<Byte>) returns (out: seq<Byte>, code: Decompressor.Code)
    requires IsStream(Joined(pieces), data)
    ensures code == Decompressor.Ok || code == Decompressor.StreamEnd
    ensures code == Decompressor.StreamEnd ==> out == data
    ensures code == Decompressor.Ok ==> Total(rooms) <= |data| && out == data[..Total(rooms)]
  {
    ghost var bs, cs, pad :| StreamOf(Joined(pieces), data, bs, cs, pad);
    ghost var g := Decompressor.Goal(bs, cs, pad);
    ghost var rest := Decompressor.Begins(Joined(pieces), data, g);
    var d := new Decompressor.DState(pieces, true, g, rest);
    out, code := DecompressRooms(d, rooms, data);
  }

  /** The calls, on a decoder at the start of a good stream. */
  method DecompressRooms(d: Decompressor.DState, rooms: seq<nat>, ghost data: seq<Byte>) returns (out: seq<Byte>, code: Decompressor.Code)
    requires d.Valid() && d.good && d.phase != Decompressor.Idle && d.t.sent == [] && data == AllData(d.g.cs, d.g.bs)
    modifies d, d.r, d.tt, d.output
    ensures code == Decompressor.Ok || code == Decompressor.StreamEnd
    ensures code == Decompressor.StreamEnd ==> out == data
    ensures code == Decompressor.Ok ==> Total(rooms) <= |data| && out == data[..Total(rooms)]
  {
    out, code := [], Decompressor.Ok;
    ghost var total := 0;
    for k := 0 to |rooms|
      invariant d.Valid() && (fresh(d.tt) || d.tt == old(d.tt)) && (fresh(d.output) || d.output == old(d.output))
      invariant code == Decompressor.Ok && d.phase != Decompressor.Idle && d.t.sent == out <= data && |out| == total == Total(rooms[..k])
    {
      TotalNext(rooms, k);
      total := total + rooms[k];
      var piece;
      code, piece := d.Decompress(rooms[k]);
      out := out + piece;
      if code == Decompressor.StreamEnd {
        return;
      }
    }
    assert rooms[..|rooms|] == rooms;
  }

  /** For every sequence of calls that ends in BZ_STREAM_END, and however the decoder's input is cut up and
      its room is given, the input the calls took comes back, as far as there is room; with room to spare,
      the decoder answers BZ_STREAM_END. Run calls and a finish with room to spare do end so, with all their
      input. */
  method CompressThenDecompress(calls: seq<Call>, blockSize100k: nat, sizes: seq<nat>, rooms: seq<nat>)
      returns (codes: seq<Compressor.Code>, lefts: seq<nat>, taken: seq<Byte>, back: seq<Byte>, code: Decompressor.Code)
    requires 1 <= blockSize100k <= 9
    ensures |lefts| == |codes| && (|codes| == |calls| || Ended(codes))
    ensures RunThenFinish(calls) && Spared(lefts) ==> Ended(codes) && taken == AllInput(calls)
    ensures Ended(codes) ==> (code == Decompressor.StreamEnd && back == taken) ||
                             (code == Decompressor.Ok && Total(rooms) <= |taken| && back == taken[..Total(rooms)])
  {
    var zipped;
    codes, lefts, taken, zipped := CompressCalls(calls, blockSize100k);
    back, code := [], Decompressor.Ok;
    if Ended(codes) {
      back, code := DecompressCalls(CutUp(zipped, sizes), rooms, taken);
    }
  }
}
