/** Runs of inflate over tokens (inflate.c), with any room for output in each call, and the round trip
    with the tokens of deflate. */
module TokenInflate {
  import opened Sequences
  import opened Bits
  import opened InflateWindow
  import opened DeflateMatch
  import opened Deflater

  /** The history h, once the match in progress is finished, is what the first i tokens stand for. */
  ghost predicate Underway(h: seq<Byte>, offset: nat, length: nat, tokens: seq<Token>, i: nat, maxDist: int) {
    && i <= |tokens|
    && if length == 0 then h == Expand(tokens[..i])
       else Reaches(h, offset) && offset <= maxDist && Copied(h, offset, length) == Expand(tokens[..i])
  }

  lemma ExpandNext(tokens: seq<Token>, i: nat)
    requires i < |tokens|
    ensures var h := Expand(tokens[..i]);
      Expand(tokens[..i + 1]) == match tokens[i] case Literal(c) => h + [c] case Match(d, l) => if Reaches(h, d) then Copied(h, d, l) else h
  {
    assert tokens[..i + 1][..i] == tokens[..i];
  }

  lemma {:induction false} CopiedPrefix(h: seq<Byte>, offset: nat, n: nat)
    requires Reaches(h, offset)
    ensures h <= Copied(h, offset, n)
    decreases n
  {
    if n > 0 { CopiedPrefix(h + [h[|h| - offset]], offset, n - 1); }
  }

  /** More tokens only add to what they stand for. */
  lemma {:induction false} ExpandPrefix(tokens: seq<Token>, i: nat, n: nat)
    requires i <= n <= |tokens|
    ensures Expand(tokens[..i]) <= Expand(tokens[..n])
    decreases n
  {
    if i < n {
      ExpandPrefix(tokens, i, n - 1);
      ExpandNext(tokens, n - 1);
      var h := Expand(tokens[..n - 1]);
      match tokens[n - 1]
      case Literal(c) =>
      case Match(d, l) => if Reaches(h, d) { CopiedPrefix(h, d, l); }
    }
  }

  lemma UnderwayPrefix(h: seq<Byte>, offset: nat, length: nat, tokens: seq<Token>, i: nat, maxDist: int)
    requires Underway(h, offset, length, tokens, i, maxDist)
    ensures h <= Expand(tokens)
  {
    ExpandPrefix(tokens, i, |tokens|);
    assert tokens[..|tokens|] == tokens;
    if length > 0 { CopiedPrefix(h, offset, length); }
  }

  /** The next token is taken up. */
  lemma UnderwayNext(tokens: seq<Token>, i: nat, data: seq<Byte>, maxDist: int, h: seq<Byte>, offset: nat)
    requires Encodes(tokens, data, maxDist) && Underway(h, offset, 0, tokens, i, maxDist) && i < |tokens|
    ensures tokens[i].Literal? ==> Underway(h + [tokens[i].c], offset, 0, tokens, i + 1, maxDist)
    ensures tokens[i].Match? ==> tokens[i].len > 0 && tokens[i].dist > 0 && Underway(h, tokens[i].dist, tokens[i].len, tokens, i + 1, maxDist)
  {
    ExpandNext(tokens, i);
    assert Fit(tokens[i], Expand(tokens[..i]), maxDist);
  }

  /** Part of the match is copied. */
  lemma UnderwayMatch(h: seq<Byte>, h': seq<Byte>, offset: nat, length: nat, length': nat, tokens: seq<Token>, i: nat, maxDist: int)
    requires Underway(h, offset, length, tokens, i, maxDist) && 0 <= length' < length && h' == Copied(h, offset, length - length')
    ensures Underway(h', offset, length', tokens, i, maxDist)
  {
    CopiedAdd(h, offset, length - length', length');
  }

  /** Goes on with the match in progress, or takes up the next token. */
  method InflateStep(f: Inflater, tokens: seq<Token>, i: nat, ghost data: seq<Byte>, ghost maxDist: int) returns (i': nat)
    requires f.Valid() && !f.bad && Encodes(tokens, data, maxDist) && maxDist <= f.window.Length
    requires Underway(f.History(), f.offset, f.length, tokens, i, maxDist) && f.left > 0 && (f.length > 0 || i < |tokens|)
    modifies f`put, f`left, f`length, f`bad, f`offset
    ensures f.Valid() && !f.bad && Underway(f.History(), f.offset, f.length, tokens, i', maxDist)
    ensures |f.put| + f.left == old(|f.put| + f.left) && i <= i' && (i < i' || f.length < old(f.length))
  {
    ghost var g := f.History();
    i' := i;
    if f.length > 0 {
      ghost var l := f.length;
      f.Match();
      UnderwayMatch(g, f.History(), f.offset, l, f.length, tokens, i, maxDist);
    } else {
      UnderwayNext(tokens, i, data, maxDist, g, f.offset);
      match tokens[i] {
        case Literal(c) => f.Literal(c);
        case Match(d, l) => f.offset, f.length := d, l;
      }
      i' := i + 1;
    }
  }

  /** One call of inflate with this room: output is all the room takes or all there is. */
  method InflateCall(f: Inflater, tokens: seq<Token>, i0: nat, room: nat, ghost data: seq<Byte>, ghost maxDist: int) returns (i: nat, piece: seq<Byte>)
    requires f.Valid() && f.put == [] && !f.bad
    requires Encodes(tokens, data, maxDist) && Underway(f.History(), f.offset, f.length, tokens, i0, maxDist) && maxDist <= f.window.Length
    modifies f, f.window
    ensures f.Valid() && f.put == [] && !f.bad && Underway(f.History(), f.offset, f.length, tokens, i, maxDist)
    ensures f.History() == old(f.History()) + piece && f.History() <= data
    ensures |piece| <= room && (|piece| == room || f.History() == data)
  {
    f.Begin(room);
    i := InflateLoop(f, tokens, i0, data, maxDist);
    piece := f.put;
    assert old(f.before) + [] == old(f.before);
    f.Leave();
  }

  /** The loop within a call: until the room or the tokens are used up. */
  method InflateLoop(f: Inflater, tokens: seq<Token>, i0: nat, ghost data: seq<Byte>, ghost maxDist: int) returns (i: nat)
    requires f.Valid() && !f.bad && Encodes(tokens, data, maxDist) && maxDist <= f.window.Length
    requires Underway(f.History(), f.offset, f.length, tokens, i0, maxDist)
    modifies f`put, f`left, f`length, f`bad, f`offset
    ensures f.Valid() && !f.bad && Underway(f.History(), f.offset, f.length, tokens, i, maxDist) && f.History() <= data
    ensures |f.put| + f.left == old(|f.put| + f.left) && (f.left == 0 || f.History() == data)
  {
    i := i0;
    while f.left > 0 && (f.length > 0 || i < |tokens|)
      invariant f.Valid() && !f.bad && Underway(f.History(), f.offset, f.length, tokens, i, maxDist)
      invariant |f.put| + f.left == old(|f.put| + f.left)
      decreases |tokens| - i, f.length
    {
      i := InflateStep(f, tokens, i, data, maxDist);
    }
    UnderwayPrefix(f.History(), f.offset, f.length, tokens, i, maxDist);
    assert tokens[..|tokens|] == tokens;
  }

  /** Any run of calls: together they give a beginning of what the tokens stand for, as long as the
      rooms together, or all of it. A match cut off by a full buffer goes on in the next call. */
  method InflateCalls(wbits: nat, tokens: seq<Token>, rooms: seq<nat>, ghost data: seq<Byte>, ghost maxDist: int) returns (out: seq<Byte>)
    requires Encodes(tokens, data, maxDist) && maxDist <= Pow2(wbits)
    ensures out == data[..Least(Total(rooms), |data|)]
  {
    var f := new Inflater(wbits);
    var i := 0;
    out := [];
    assert rooms[..|rooms|] == rooms;
    for k := 0 to |rooms|
      invariant f.Valid() && fresh(f) && fresh(f.window) && f.put == [] && !f.bad && f.window.Length == Pow2(wbits)
      invariant Underway(f.History(), f.offset, f.length, tokens, i, maxDist)
      invariant f.History() == out <= data && |out| == Least(Total(rooms[..k]), |data|)
    {
      TotalNext(rooms, k);
      var piece;
      i, piece := InflateCall(f, tokens, i, rooms[k], data, maxDist);
      out := out + piece;
    }
  }

  /** Deflate at any level and over any calls, then inflate with any rooms: the input comes back; and
      it does if the last call flushes and there always was space for what deflate puts out. */
  method DeflateThenInflate(wbits: nat, hashBits: nat, litBufsize: nat, maxChain: int, goodMatch: nat, niceMatch: nat, maxLazy: nat, filtered: bool,
                            full: seq<bool>, slow: bool, calls: seq<(seq<Byte>, Flush)>, rooms: seq<nat>) returns (b: Block, out: seq<Byte>)
    requires wbits >= 9 && hashBits >= 8
    ensures b != NeedMore ==> out == Given(calls)[..Least(Total(rooms), |Given(calls)|)]
    ensures |calls| > 0 && calls[|calls| - 1].1 != NoFlush && Roomy(full) ==> b != NeedMore
  {
    var m := new Machine(wbits, hashBits, litBufsize, maxChain, goodMatch, niceMatch, maxLazy, filtered, full);
    b := m.Calls(slow, calls);
    out := [];
    if b != NeedMore {
      assert [] + Given(calls) == Given(calls);
      out := InflateCalls(wbits, m.tokens, rooms, Given(calls), m.wsize - MinLookahead);
    }
  }
}
