/** The list of table selectors, one for each group of 50 symbols: moved to front and sent in
    unary (sendMTFValues in compress.c, the selector part of BZ2_decompress). */
module SelectorList {
  import opened Sequences
  import opened Bits
  import opened BitIO
  import opened MoveToFront

  /** The selectors as places in a list that moves each to the front. */
  ghost function Places(sel: seq<int>, pos: seq<int>): (r: seq<int>)
    requires Codable(sel, pos)
    ensures |r| == |sel|
    decreases |sel|
  {
    if |sel| == 0 then []
    else
      MovedToFront(pos, sel[0]);
      var j := Index(pos, sel[0]);
      [j] + Places(sel[1..], ToFront(pos, j))
  }

  lemma {:induction false} PlacesInRange(sel: seq<int>, pos: seq<int>)
    requires Codable(sel, pos)
    ensures InRange(Places(sel, pos), |pos|)
    decreases |sel|
  {
    if |sel| > 0 {
      MovedToFront(pos, sel[0]);
      PlacesInRange(sel[1..], ToFront(pos, Index(pos, sel[0])));
    }
  }

  function Unary(j: nat): seq<bool> { if j == 0 then [false] else [true] + Unary(j - 1) }

  ghost function UnaryAll(s: seq<int>): seq<bool>
    requires forall k :: 0 <= k < |s| ==> s[k] >= 0
  {
    if |s| == 0 then [] else Unary(s[0]) + UnaryAll(s[1..])
  }

  /** The number of tables, the number of selectors, and the selectors. */
  ghost function SelectorBits(nGroups: nat, sel: seq<int>): seq<bool>
    requires 0 < nGroups && InRange(sel, nGroups)
  {
    ToBits(nGroups, 3) + (ToBits(|sel|, 15) + ListBits(nGroups, sel))
  }

  ghost function ListBits(nGroups: nat, sel: seq<int>): seq<bool>
    requires 0 < nGroups && InRange(sel, nGroups)
  {
    PlacesInRange(sel, Iota(nGroups));
    UnaryAll(Places(sel, Iota(nGroups)))
  }

  // ---- Writing ----

  /** Finds x in the list and moves it to the front. */
  method PlaceOf(pos: array<int>, n: nat, x: int) returns (j: int)
    requires n <= pos.Length && IsPermutation(pos[..n]) && 0 <= x < n
    modifies pos
    ensures 0 <= j < n && j == Index(old(pos[..n]), x) && pos[..n] == ToFront(old(pos[..n]), j)
  {
    if pos[0] == x {
      j := 0;
    } else {
      j := RotateToFront(pos, n, x);
    }
  }

  /** Computes the MTF values of the selectors. */
  method SelectorPlaces(selector: seq<int>, nGroups: nat) returns (selectorMtf: seq<int>)
    requires 0 < nGroups <= 6 && InRange(selector, nGroups)
    ensures Codable(selector, Iota(nGroups)) && selectorMtf == Places(selector, Iota(nGroups))
  {
    var pos := new int[6](i => i);
    ghost var n := |selector|;
    assert pos[..nGroups] == Iota(nGroups);
    selectorMtf := [];
    assert selector[0..] == selector;
    for i := 0 to |selector|
      invariant Codable(selector[i..], pos[..nGroups])
      invariant selectorMtf + Places(selector[i..], pos[..nGroups]) == Places(selector, Iota(nGroups))
    {
      ghost var p, rest := pos[..nGroups], selector[i..];
      MovedToFront(p, selector[i]);
      var j := PlaceOf(pos, nGroups, selector[i]);
      assert rest[1..] == selector[i + 1..];
      Assoc(selectorMtf, [j], Places(rest[1..], ToFront(p, j)));
      selectorMtf := selectorMtf + [j];
    }
    assert selectorMtf + [] == selectorMtf;
  }

  method WriteUnary(w: BitWriter, n: nat)
    requires w.Valid()
    modifies w
    ensures w.Appended(Unary(n))
  {
    ghost var start := w.written;
    for j := 0 to n
      invariant w.Valid() && w.flushed == old(w.flushed) && w.written + Unary(n - j) == start + Unary(n)
    {
      Assoc(w.written, [true], Unary(n - j - 1));
      w.PutBit(true);
    }
    w.PutBit(false);
  }

  method WriteSelectorList(w: BitWriter, selectorMtf: seq<int>)
    requires w.Valid() && forall k :: 0 <= k < |selectorMtf| ==> selectorMtf[k] >= 0
    modifies w
    ensures w.Appended(UnaryAll(selectorMtf))
  {
    ghost var start := w.written;
    assert selectorMtf[0..] == selectorMtf;
    for i := 0 to |selectorMtf|
      invariant w.Valid() && w.flushed == old(w.flushed)
      invariant w.written + UnaryAll(selectorMtf[i..]) == start + UnaryAll(selectorMtf)
    {
      assert selectorMtf[i..][1..] == selectorMtf[i + 1..];
      Assoc(w.written, Unary(selectorMtf[i]), UnaryAll(selectorMtf[i + 1..]));
      WriteUnary(w, selectorMtf[i]);
    }
    assert w.written + [] == w.written;
  }

  lemma SmallWidths()
    ensures Pow2(3) == 8 && Pow2(5) == 32 && Pow2(15) == 32768
  {
    assert Pow2(10) == 1024;
  }

  method WriteSelectors(w: BitWriter, nGroups: nat, selector: seq<int>)
    requires w.Valid() && 0 < nGroups <= 6 && InRange(selector, nGroups) && |selector| < 32768
    modifies w
    ensures w.Appended(SelectorBits(nGroups, selector))
  {
    var selectorMtf := SelectorPlaces(selector, nGroups);
    PlacesInRange(selector, Iota(nGroups));
    SmallWidths();
    w.Write(3, nGroups);
    w.Write(15, |selector|);
    WriteSelectorList(w, selectorMtf);
    ghost var a, b, c := ToBits(nGroups, 3), ToBits(|selector|, 15), UnaryAll(selectorMtf);
    Assoc(old(w.written) + a, b, c);
    Assoc(old(w.written), a, b + c);
  }

  // ---- Reading ----

  /** Reads one unary number below n. */
  method ReadUnary(r: BitReader, n: nat, ghost want: nat, ghost tail: seq<bool>) returns (j: Fetch<nat>)
    requires r.Valid() && n > 0
    modifies r
    ensures r.Valid() && |r.rest| <= |old(r.rest)|
    ensures (j.Got? ==> j.value < n) && !j.Overrun?
    ensures want < n && old(r.rest) == Unary(want) + tail ==> j == Got(want) && r.rest == tail
  {
    ghost var ok := want < n && r.rest == Unary(want) + tail;
    var k: nat := 0;
    while true
      invariant r.Valid() && k < n && |r.rest| <= |old(r.rest)|
      invariant ok ==> k <= want && r.rest == Unary(want - k) + tail
      decreases n - k
    {
      assert ok && k < want ==> r.rest == [true] + (Unary(want - k - 1) + tail);
      var uc :- r.GetBit();
      if uc == 0 {
        break;
      }
      k := k + 1;
      if k >= n {
        return DataError;
      }
    }
    j := Got(k);
  }

  /** The program has room for this many selectors (BZ_MAX_SELECTORS), and does not compare their
      number with it. */
  const MaxSelectors: nat := 18002

  method ReadSelectorList(r: BitReader, nGroups: nat, nSelectors: nat, selectorMtf: array<int>, ghost want: seq<int>, ghost tail: seq<bool>)
      returns (f: Fetch<bool>)
    requires r.Valid() && nGroups > 0 && selectorMtf.Length == MaxSelectors
    modifies r, selectorMtf
    ensures r.Valid() && |r.rest| <= |old(r.rest)|
    ensures f.Got? ==> nSelectors <= MaxSelectors && InRange(selectorMtf[..nSelectors], nGroups)
    ensures f.Overrun? ==> nSelectors > MaxSelectors
    ensures |want| == nSelectors && InRange(want, nGroups) && old(r.rest) == UnaryAll(want) + tail ==>
              if nSelectors <= MaxSelectors then f.Got? && selectorMtf[..nSelectors] == want && r.rest == tail else f == Overrun
  {
    ghost var ok := |want| == nSelectors && InRange(want, nGroups) && r.rest == UnaryAll(want) + tail;
    assert want[0..] == want;
    for i := 0 to nSelectors
      invariant r.Valid() && |r.rest| <= |old(r.rest)| && i <= MaxSelectors && InRange(selectorMtf[..i], nGroups)
      invariant ok ==> selectorMtf[..i] == want[..i] && r.rest == UnaryAll(want[i..]) + tail
    {
      ghost var next := if ok then want[i] else 0;
      ghost var after := if ok then UnaryAll(want[i + 1..]) + tail else [];
      if ok {
        assert want[i..][1..] == want[i + 1..];
        Assoc(Unary(want[i]), UnaryAll(want[i + 1..]), tail);
      }
      var j :- ReadUnary(r, nGroups, next, after);
      if i >= selectorMtf.Length {
        return Overrun;
      }
      ghost var was := selectorMtf[..i];
      selectorMtf[i] := j;
      assert selectorMtf[..i + 1] == was + [j];
      assert ok ==> want[..i + 1] == want[..i] + [want[i]];
    }
    assert ok ==> want[..nSelectors] == want && UnaryAll(want[nSelectors..]) + tail == tail;
    f := Got(true);
  }

  /** Moves entry v to the front. */
  method TakePlace(pos: array<int>, n: nat, v0: nat) returns (tmp: int)
    requires v0 < n <= pos.Length
    modifies pos
    ensures tmp == old(pos[v0]) && pos[..n] == ToFront(old(pos[..n]), v0)
  {
    ghost var was := pos[..n];
    var v := v0;
    tmp := pos[v];
    while v > 0
      invariant 0 <= v <= v0
      invariant forall k :: 0 <= k <= v ==> k < v0 ==> pos[k] == was[k]
      invariant forall k :: v < k <= v0 ==> pos[k] == was[k - 1]
      invariant forall k :: v0 < k < n ==> pos[k] == was[k]
    {
      pos[v] := pos[v - 1];
      v := v - 1;
    }
    pos[0] := tmp;
    assert pos[..n] == ToFront(was, v0);
  }

  /** The selectors that places in a list stand for. */
  ghost function Undone(m: seq<int>, pos: seq<int>): (s: seq<int>)
    requires InRange(m, |pos|)
    decreases |m|
  {
    if |m| == 0 then [] else [pos[m[0]]] + Undone(m[1..], ToFront(pos, m[0]))
  }

  lemma {:induction false} UndonePlaces(sel: seq<int>, pos: seq<int>)
    requires Codable(sel, pos)
    ensures InRange(Places(sel, pos), |pos|) && Undone(Places(sel, pos), pos) == sel
    decreases |sel|
  {
    PlacesInRange(sel, pos);
    if |sel| > 0 {
      MovedToFront(pos, sel[0]);
      UndonePlaces(sel[1..], ToFront(pos, Index(pos, sel[0])));
    }
  }

  lemma {:induction false} UndoneInRange(m: seq<int>, pos: seq<int>)
    requires IsPermutation(pos) && InRange(m, |pos|)
    ensures |Undone(m, pos)| == |m| && InRange(Undone(m, pos), |pos|)
    decreases |m|
  {
    if |m| > 0 {
      ToFrontPermutation(pos, m[0]);
      UndoneInRange(m[1..], ToFront(pos, m[0]));
    }
  }

  /** Undoes the MTF values of the selectors. */
  method UndoPlaces(selectorMtf: array<int>, selector: array<int>, nSelectors: nat, nGroups: nat)
    requires 0 < nGroups <= 6 && nSelectors <= selectorMtf.Length == selector.Length && selector != selectorMtf
    requires InRange(selectorMtf[..nSelectors], nGroups)
    modifies selector
    ensures selector[..nSelectors] == Undone(selectorMtf[..nSelectors], Iota(nGroups)) && InRange(selector[..nSelectors], nGroups)
  {
    ghost var m := selectorMtf[..nSelectors];
    UndoneInRange(m, Iota(nGroups));
    var pos := new int[6](i => i);
    assert pos[..nGroups] == Iota(nGroups);
    assert m[0..] == m;
    for i := 0 to nSelectors
      invariant fresh(pos) && selectorMtf[..nSelectors] == m && selector[..i] + Undone(m[i..], pos[..nGroups]) == Undone(m, Iota(nGroups))
    {
      ghost var p, was := pos[..nGroups], selector[..i];
      assert m[i..][1..] == m[i + 1..];
      var tmp := TakePlace(pos, nGroups, selectorMtf[i]);
      Assoc(was, [tmp], Undone(m[i + 1..], ToFront(p, m[i])));
      selector[i] := tmp;
      assert selector[..i + 1] == was + [tmp];
    }
    assert selector[..nSelectors] + [] == selector[..nSelectors];
  }

  /** Receives the selectors proper. */
  method ReadPlaces(r: BitReader, nGroups: nat, nSelectors: nat, ghost want: seq<int>, ghost tail: seq<bool>)
      returns (s: Fetch<seq<int>>)
    requires r.Valid() && 0 < nGroups <= 6
    modifies r
    ensures r.Valid() && |r.rest| <= |old(r.rest)|
    ensures s.Got? ==> |s.value| == nSelectors <= MaxSelectors && InRange(s.value, nGroups)
    ensures s.Overrun? ==> nSelectors > MaxSelectors
    ensures |want| == nSelectors && InRange(want, nGroups) && old(r.rest) == ListBits(nGroups, want) + tail ==>
              if nSelectors <= MaxSelectors then s == Got(want) && r.rest == tail else s == Overrun
  {
    ghost var places := [];
    if InRange(want, nGroups) {
      UndonePlaces(want, Iota(nGroups));
      places := Places(want, Iota(nGroups));
    }
    var selectorMtf, selector := new int[MaxSelectors], new int[MaxSelectors];
    var f :- ReadSelectorList(r, nGroups, nSelectors, selectorMtf, places, tail);
    UndoPlaces(selectorMtf, selector, nSelectors, nGroups);
    s := Got(selector[..nSelectors]);
  }

  /** Where the number of selectors stands in the bits ahead. */
  ghost predicate Counts(bits: seq<bool>, n: nat) { |bits| >= 18 && Value(bits[3..][..15]) == n }

  /** Receives the selectors. A list of more than the program has room for makes it store past the end
      of its arrays, and only such a list does. */
  method ReadSelectors(r: BitReader, ghost wantGroups: nat, ghost want: seq<int>, ghost tail: seq<bool>)
      returns (s: Fetch<(nat, seq<int>)>)
    requires r.Valid() && wantGroups > 0 && InRange(want, wantGroups)
    modifies r
    ensures r.Valid() && |r.rest| <= |old(r.rest)|
    ensures s.Got? ==> 2 <= s.value.0 <= 6 && InRange(s.value.1, s.value.0) && 0 < |s.value.1| <= MaxSelectors
    ensures s.Overrun? ==> exists n: nat :: Counts(old(r.rest), n) && n > MaxSelectors
    ensures 2 <= wantGroups <= 6 && 0 < |want| < 32768 && old(r.rest) == SelectorBits(wantGroups, want) + tail ==>
              if |want| <= MaxSelectors then s == Got((wantGroups, want)) && r.rest == tail else s == Overrun
  {
    ghost var list, z := ListBits(wantGroups, want), r.rest;
    SmallWidths();
    Assoc(ToBits(wantGroups, 3), ToBits(|want|, 15) + list, tail);
    Assoc(ToBits(|want|, 15), list, tail);
    var nGroups :- r.GetNumber(3, wantGroups, ToBits(|want|, 15) + (list + tail));
    if nGroups < 2 || nGroups > 6 {
      return DataError;
    }
    var nSelectors :- r.GetNumber(15, |want|, list + tail);
    assert Counts(z, nSelectors);
    if nSelectors < 1 {
      return DataError;
    }
    var selector :- ReadPlaces(r, nGroups, nSelectors, want, tail);
    s := Got((nGroups, selector));
  }
}
