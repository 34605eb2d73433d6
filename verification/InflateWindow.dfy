/** The history of inflate (inflate.c): match copies from the circular window and from the output
    of the present call, and updatewindow between calls. */
module InflateWindow {
  import opened Sequences
  import opened Bits

  // ---- Matches on the history ----

  /** A match is valid for a history at least as long as its distance. */
  ghost predicate Reaches(h: seq<Byte>, offset: nat) { 1 <= offset <= |h| }

  /** The history after n bytes of a match: each repeats the byte offset places before it. */
  ghost function Copied(h: seq<Byte>, offset: nat, n: nat): (r: seq<Byte>)
    requires Reaches(h, offset)
    ensures |r| == |h| + n
    decreases n
  {
    if n == 0 then h else Copied(h + [h[|h| - offset]], offset, n - 1)
  }

  lemma {:induction false} CopiedAdd(h: seq<Byte>, offset: nat, m: nat, n: nat)
    requires Reaches(h, offset)
    ensures Copied(h, offset, m + n) == Copied(Copied(h, offset, m), offset, n)
    decreases m
  {
    if m > 0 { CopiedAdd(h + [h[|h| - offset]], offset, m - 1, n); }
  }

  /** A match no longer than its distance repeats a stretch of the history. */
  lemma {:induction false} CopiedStretch(h: seq<Byte>, offset: nat, n: nat)
    requires Reaches(h, offset) && n <= offset
    ensures Copied(h, offset, n) == h + h[|h| - offset..|h| - offset + n]
    decreases n
  {
    if n > 0 {
      var x := |h| - offset;
      CopiedStretch(h, offset, n - 1);
      CopiedAdd(h, offset, n - 1, 1);
      var g := h + h[x..x + n - 1];
      assert g[|g| - offset] == h[x + n - 1];
      assert h[x..x + n] == h[x..x + n - 1] + [h[x + n - 1]];
    }
  }

  // ---- The circular window ----

  /** Where the byte d places back stands. */
  function Slot(wnext: int, wsize: int, d: int): int { if d <= wnext then wnext - d else wnext + wsize - d }

  function Least(x: int, y: int): int { if x < y then x else y }

  /** The window holds the last whave bytes of the history, which are all or a window full. */
  ghost predicate Holds(w: seq<Byte>, wsize: int, wnext: int, whave: int, h: seq<Byte>) {
    && 0 < wsize == |w| && 0 <= wnext < wsize && whave == Least(wsize, |h|) && (whave < wsize ==> wnext == whave)
    && forall d :: 1 <= d <= whave ==> w[Slot(wnext, wsize, d)] == h[|h| - d]
  }

  lemma HoldsNothing(w: seq<Byte>)
    requires |w| > 0
    ensures Holds(w, |w|, 0, 0, [])
  {
  }

  /** A window full of new bytes. */
  lemma RefillHolds(h: seq<Byte>, put: seq<Byte>, wsize: int)
    requires 0 < wsize <= |put|
    ensures Holds(put[|put| - wsize..], wsize, 0, wsize, h + put)
  {
  }

  /** Bytes put in before the end of the window. */
  lemma AppendHolds(w: seq<Byte>, wsize: int, wnext: int, whave: int, h: seq<Byte>, put: seq<Byte>)
    requires Holds(w, wsize, wnext, whave, h) && wnext + |put| <= wsize && |put| < wsize
    ensures var n := wnext + |put|;
      Holds(w[..wnext] + put + w[n..], wsize, if n == wsize then 0 else n, if whave < wsize then whave + |put| else whave, h + put)
  {
    var n, g := wnext + |put|, h + put;
    var v, next := w[..wnext] + put + w[n..], if n == wsize then 0 else n;
    var have := if whave < wsize then whave + |put| else whave;
    forall d | 1 <= d <= have ensures v[Slot(next, wsize, d)] == g[|g| - d] {
      if d > |put| {
        assert w[Slot(wnext, wsize, d - |put|)] == h[|h| - (d - |put|)];
      }
    }
  }

  /** Bytes put in around the end of the window. */
  lemma WrapHolds(w: seq<Byte>, wsize: int, wnext: int, whave: int, h: seq<Byte>, put: seq<Byte>)
    requires Holds(w, wsize, wnext, whave, h) && wsize < wnext + |put| && |put| < wsize
    ensures var dist := wsize - wnext; var rest := |put| - dist;
      Holds(put[dist..] + w[rest..wnext] + put[..dist], wsize, rest, wsize, h + put)
  {
    var dist, g := wsize - wnext, h + put;
    var rest := |put| - dist;
    var v := put[dist..] + w[rest..wnext] + put[..dist];
    forall d | 1 <= d <= wsize ensures v[Slot(rest, wsize, d)] == g[|g| - d] {
      if d > |put| {
        assert w[Slot(wnext, wsize, d - |put|)] == h[|h| - (d - |put|)];
      }
    }
  }

  /** The bytes of a match that lie in the window: those up to the end of the history before the
      present call, or up to the end of the window if that comes first. */
  lemma WindowStretch(w: seq<Byte>, wsize: int, wnext: int, whave: int, h: seq<Byte>, back: int, n: int)
    requires Holds(w, wsize, wnext, whave, h) && 1 <= back <= whave && 0 <= n <= (if back > wnext then back - wnext else back)
    ensures var from := if back > wnext then wsize - (back - wnext) else wnext - back;
      0 <= from && from + n <= wsize && w[from..from + n] == h[|h| - back..|h| - back + n]
  {
    var from := if back > wnext then wsize - (back - wnext) else wnext - back;
    var x := |h| - back;
    var a, b := w[from..from + n], h[x..x + n];
    forall j | 0 <= j < n ensures a[j] == b[j] {
      var d := back - j;
      assert w[Slot(wnext, wsize, d)] == h[|h| - d];
    }
  }

  /** What is copied from the window continues the match. */
  lemma WindowCopy(w: seq<Byte>, wsize: int, wnext: int, whave: int, h: seq<Byte>, put: seq<Byte>, offset: nat, n: nat)
    requires Holds(w, wsize, wnext, whave, h) && |put| < offset <= |put| + whave
    requires var back := offset - |put|; n <= (if back > wnext then back - wnext else back)
    ensures var back := offset - |put|;
      var from := if back > wnext then wsize - (back - wnext) else wnext - back;
      0 <= from && from + n <= wsize && Reaches(h + put, offset) && h + (put + w[from..from + n]) == Copied(h + put, offset, n)
  {
    var back, g := offset - |put|, h + put;
    WindowStretch(w, wsize, wnext, whave, h, back, n);
    CopiedStretch(g, offset, n);
    var from := if back > wnext then wsize - (back - wnext) else wnext - back;
    assert g[|g| - offset..|g| - offset + n] == h[|h| - back..|h| - back + n];
    Assoc(h, put, w[from..from + n]);
  }

  lemma TwoPuts(w: seq<Byte>, w1: seq<Byte>, w2: seq<Byte>, put: seq<Byte>, wnext: nat, dist: nat)
    requires wnext + dist == |w| && dist <= |put| && |put| - dist <= wnext
    requires w1 == w[..wnext] + put[..dist] + w[wnext + dist..]
    requires w2 == w1[..0] + put[dist..] + w1[0 + |put[dist..]|..]
    ensures w2 == put[dist..] + w[|put| - dist..wnext] + put[..dist]
  {
  }

  class Inflater {
    const window: array<Byte>
    var wsize: nat
    var wnext: nat
    var whave: nat
    /** The output of the present call, and the room left. */
    var put: seq<Byte>
    var left: nat
    /** The match in progress. */
    var offset: nat
    var length: nat
    var bad: bool
    /** The output of the calls before. */
    ghost var before: seq<Byte>

    ghost predicate Valid()
      reads this, window
    {
      && window.Length > 0
      && if wsize == 0 then whave == 0 && before == [] else Holds(window[..], wsize, wnext, whave, before)
    }

    ghost function History(): seq<Byte>
      reads this
    {
      before + put
    }

    constructor (wbits: nat)
      ensures Valid() && History() == [] && fresh(window) && window.Length == Pow2(wbits) && !bad && length == 0
    {
      window := new Byte[Pow2(wbits)](_ => 0);
      wsize, wnext, whave, put, left, offset, length, bad, before := 0, 0, 0, [], 0, 0, 0, false, [];
    }

    /** A call begins, with room for so many bytes. */
    method Begin(availOut: nat)
      requires Valid() && put == []
      modifies this`left
      ensures Valid() && left == availOut && History() == old(History())
    {
      left := availOut;
    }

    /** The LIT state. */
    method Literal(c: Byte)
      requires Valid() && left > 0
      modifies this`put, this`left
      ensures Valid() && History() == old(History()) + [c] && left == old(left) - 1
    {
      put := put + [c];
      left := left - 1;
      Assoc(before, old(put), [c]);
    }

    /** Copies n bytes from the output of the present call, one by one. */
    method CopyFromOutput(dist: nat, n: nat)
      requires 1 <= dist <= |put|
      modifies this`put
      ensures Reaches(old(History()), dist) && History() == Copied(old(History()), dist, n) && |put| == |old(put)| + n
    {
      ghost var h := History();
      var k := 0;
      while k < n
        invariant 0 <= k <= n && dist <= |put| == |old(put)| + k && History() == Copied(h, dist, k)
      {
        CopiedAdd(h, dist, k, 1);
        ghost var g := History();
        assert g[|g| - dist] == put[|put| - dist];
        Assoc(before, put, [put[|put| - dist]]);
        put := put + [put[|put| - dist]];
        k := k + 1;
      }
    }

    /** Copies the part of the match that lies in the window, at most n bytes. */
    method CopyFromWindow(n: nat) returns (copy: nat)
      requires Valid() && |put| < offset <= |put| + whave && n > 0
      modifies this`put
      ensures Valid() && 0 < copy <= n && Reaches(old(History()), offset) && History() == Copied(old(History()), offset, copy)
    {
      var back := offset - |put|;
      copy := back;
      var from;
      if copy > wnext {
        copy := copy - wnext;
        from := wsize - copy;
      } else {
        from := wnext - copy;
      }
      if copy > n { copy := n; }
      WindowCopy(window[..], wsize, wnext, whave, before, put, offset, copy);
      put := put + window[from..from + copy];
    }

    /** One turn of the MATCH state: copies at least one byte of the match, or finds that it reaches
        back before the history. */
    method MatchTurn()
      requires Valid() && left > 0 && length > 0 && offset > 0 && !bad
      modifies this`put, this`left, this`length, this`bad
      ensures Valid() && bad == (offset > |old(put)| + whave)
      ensures bad ==> put == old(put) && length == old(length) && left == old(left)
      ensures !bad ==> length < old(length) && left < old(left) && old(left) - left == old(length) - length
      ensures !bad ==> Reaches(old(History()), offset) && History() == Copied(old(History()), offset, old(length) - length)
    {
      var n := Least(length, left);
      if offset > |put| {
        if offset - |put| > whave {
          bad := true;
          return;
        }
        n := CopyFromWindow(n);
      } else {
        CopyFromOutput(offset, n);
      }
      left := left - n;
      length := length - n;
    }

    /** The whole of a match, or as much as there is room for. For distances within the window it is
        refused exactly when it reaches back before the first byte of output. */
    method Match()
      requires Valid() && offset > 0 && !bad
      modifies this`put, this`left, this`length, this`bad
      ensures Valid() && bad == (old(left) > 0 && old(length) > 0 && offset > |old(put)| + whave)
      ensures wsize == 0 || offset <= wsize ==> (offset > |old(put)| + whave <==> offset > |old(History())|)
      ensures bad ==> History() == old(History())
      ensures !bad ==> old(left) - left == old(length) - length == Least(old(left), old(length))
      ensures !bad && old(left) > 0 && old(length) > 0 ==>
                Reaches(old(History()), offset) && History() == Copied(old(History()), offset, old(length) - length)
    {
      ghost var h := History();
      while left > 0 && length > 0 && !bad
        invariant Valid() && (bad ==> History() == h && offset > |old(put)| + whave && old(left) > 0 && old(length) > 0)
        invariant length <= old(length) && old(left) - left == old(length) - length
        invariant length < old(length) ==> !bad && offset <= |old(put)| + whave && Reaches(h, offset) && History() == Copied(h, offset, old(length) - length)
        invariant (length == old(length) ==> put == old(put)) && |put| >= |old(put)|
        decreases length, if bad then 0 else 1
      {
        ghost var k := old(length) - length;
        ghost var was := length;
        MatchTurn();
        if !bad && k > 0 { CopiedAdd(h, offset, k, was - length); }
      }
    }

    /** Copies n bytes of a match from its place in the window. */
    method TakeWindow(dist: nat, from: int, n: nat)
      requires Valid() && |put| < dist <= |put| + whave
      requires var back := dist - |put|;
        from == (if back > wnext then wsize - (back - wnext) else wnext - back) && n <= (if back > wnext then back - wnext else back)
      modifies this`put
      ensures Valid() && Reaches(old(History()), dist) && History() == Copied(old(History()), dist, n) && |put| == |old(put)| + n
    {
      WindowCopy(window[..], wsize, wnext, whave, before, put, dist, n);
      put := put + window[from..from + n];
    }

    /** The rest of a match, from the output. */
    method FastRest(dist: nat, len: nat, n: nat, ghost h: seq<Byte>)
      requires Valid() && 1 <= dist <= |put| && n <= len && Reaches(h, dist) && History() == Copied(h, dist, len - n)
      modifies this`put
      ensures Valid() && History() == Copied(h, dist, len) && |put| == |old(put)| + n
    {
      CopiedAdd(h, dist, len - n, n);
      CopyFromOutput(dist, n);
    }

    /** The match of inflate_fast that begins in the window: the part up to the end of the window, the
        part at its start, and the part in the output, as far as each is needed. */
    method FastWindow(dist: nat, len: nat)
      requires Valid() && |put| < dist <= |put| + whave
      modifies this`put
      ensures Valid() && Reaches(old(History()), dist) && History() == Copied(old(History()), dist, len) && |put| == |old(put)| + len
    {
      ghost var h := History();
      var op := dist - |put|;
      if wnext == 0 {
        if op < len {
          TakeWindow(dist, wsize - op, op);
          FastRest(dist, len, len - op, h);
        } else {
          TakeWindow(dist, wsize - op, len);
        }
      } else if wnext < op {
        FastAround(dist, len);
      } else if op < len {
        TakeWindow(dist, wnext - op, op);
        FastRest(dist, len, len - op, h);
      } else {
        TakeWindow(dist, wnext - op, len);
      }
    }

    /** The match goes around the end of the window. */
    method FastAround(dist: nat, len: nat)
      requires Valid() && |put| + wnext < dist <= |put| + whave && wnext > 0
      modifies this`put
      ensures Valid() && Reaches(old(History()), dist) && History() == Copied(old(History()), dist, len) && |put| == |old(put)| + len
    {
      ghost var h := History();
      var op := dist - |put|;
      var from := wsize + wnext - op;
      op := op - wnext;
      if op >= len {
        TakeWindow(dist, from, len);
        return;
      }
      TakeWindow(dist, from, op);
      if wnext < len - op {
        CopiedAdd(h, dist, op, wnext);
        TakeWindow(dist, 0, wnext);
        FastRest(dist, len, len - op - wnext, h);
      } else {
        CopiedAdd(h, dist, op, len - op);
        TakeWindow(dist, 0, len - op);
      }
    }

    /** The match copy of inflate_fast: false if the match reaches back before the history. */
    method FastMatch(dist: nat, len: nat) returns (ok: bool)
      requires Valid() && dist > 0 && len <= left
      modifies this`put, this`left
      ensures Valid() && ok == (dist <= |old(put)| + whave)
      ensures ok ==> Reaches(old(History()), dist) && History() == Copied(old(History()), dist, len) && left == old(left) - len
      ensures ok ==> |put| == |old(put)| + len
      ensures !ok ==> put == old(put) && left == old(left)
    {
      if dist > |put| {
        if dist - |put| > whave {
          return false;
        }
        FastWindow(dist, len);
      } else {
        CopyFromOutput(dist, len);
      }
      left := left - len;
      ok := true;
    }

    /** updatewindow at the end of a call. */
    method UpdateWindow()
      requires Valid()
      modifies this`wsize, this`wnext, this`whave, window
      ensures wsize == window.Length && Holds(window[..], wsize, wnext, whave, History())
    {
      if wsize == 0 {
        wsize := window.Length;
        wnext := 0;
        whave := 0;
        HoldsNothing(window[..]);
      }
      if |put| >= wsize {
        Refill();
      } else if wnext + |put| > wsize {
        PutAround();
      } else {
        PutBehind();
      }
    }

    /** The last window full of output replaces the window. */
    method Refill()
      requires Valid() && 0 < wsize <= |put|
      modifies this`wnext, this`whave, window
      ensures Holds(window[..], wsize, wnext, whave, History())
    {
      RefillHolds(before, put, wsize);
      PutIn(0, put[|put| - wsize..]);
      assert window[..] == put[|put| - wsize..];
      wnext := 0;
      whave := wsize;
    }

    /** The output goes around the end of the window. */
    method PutAround()
      requires Valid() && 0 < wsize < wnext + |put| && |put| < wsize
      modifies this`wnext, this`whave, window
      ensures Holds(window[..], wsize, wnext, whave, History())
    {
      ghost var w := window[..];
      var dist := wsize - wnext;
      var copy := |put| - dist;
      WrapHolds(w, wsize, wnext, whave, before, put);
      PutIn(wnext, put[..dist]);
      ghost var w1 := window[..];
      PutIn(0, put[dist..]);
      TwoPuts(w, w1, window[..], put, wnext, dist);
      wnext := copy;
      whave := wsize;
    }

    /** The output goes in before the end of the window. */
    method PutBehind()
      requires Valid() && 0 < wsize && wnext + |put| <= wsize && |put| < wsize
      modifies this`wnext, this`whave, window
      ensures Holds(window[..], wsize, wnext, whave, History())
    {
      var dist := |put|;
      AppendHolds(window[..], wsize, wnext, whave, before, put);
      PutIn(wnext, put[..dist]);
      assert put[..dist] == put;
      wnext := wnext + dist;
      if wnext == wsize { wnext := 0; }
      if whave < wsize { whave := whave + dist; }
    }

    /** zmemcpy into the window. */
    method PutIn(at: nat, bytes: seq<Byte>)
      requires at + |bytes| <= window.Length
      modifies window
      ensures window[..] == old(window[..at]) + bytes + old(window[at + |bytes|..])
    {
      ghost var w := window[..];
      for i := 0 to |bytes|
        invariant window[..] == w[..at] + bytes[..i] + w[at + i..]
      {
        window[at + i] := bytes[i];
        assert window[..] == w[..at] + bytes[..i + 1] + w[at + i + 1..];
      }
      assert bytes[..|bytes|] == bytes;
    }

    /** The end of a call: the window is brought up to date if it is in use or there was output. */
    method Leave()
      requires Valid()
      modifies this`wsize, this`wnext, this`whave, this`put, this`before, window
      ensures Valid() && put == [] && History() == old(History())
    {
      if wsize > 0 || |put| > 0 {
        UpdateWindow();
      }
      before, put := before + put, [];
      assert before + [] == before;
    }
  }
}
