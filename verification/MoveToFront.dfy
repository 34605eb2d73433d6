/** Move-to-front coding of the last column with runs of the front symbol in bijective base two
    (generateMTFValues), written over the sorted pointers it reads. */
module MoveToFront {
  import opened Sequences
  import opened Bits

  const RUNA := 0
  const RUNB := 1

  /** The list with entry j moved to the front. */
  function ToFront(yy: seq<int>, j: int): (r: seq<int>)
    requires 0 <= j < |yy|
    ensures |r| == |yy|
  {
    [yy[j]] + yy[..j] + yy[j + 1..]
  }

  lemma ToFrontAt(yy: seq<int>, j: int, k: int)
    requires 0 <= j < |yy| && 0 <= k < |yy|
    ensures ToFront(yy, j)[k] == if k == 0 then yy[j] else if k <= j then yy[k - 1] else yy[k]
  {
  }

  /** Where x first stands in a list; its length if nowhere. */
  function Index(yy: seq<int>, x: int): (j: nat)
    ensures j <= |yy|
  {
    if |yy| == 0 || yy[0] == x then 0 else 1 + Index(yy[1..], x)
  }

  lemma {:induction false} IndexIs(yy: seq<int>, x: int, j: int)
    requires 0 <= j < |yy| && yy[j] == x && forall k :: 0 <= k < j ==> yy[k] != x
    ensures Index(yy, x) == j
  {
    if j > 0 { IndexIs(yy[1..], x, j - 1); }
  }

  lemma IndexFound(yy: seq<int>, x: int)
    requires IsPermutation(yy) && 0 <= x < |yy|
    ensures Index(yy, x) < |yy| && yy[Index(yy, x)] == x
  {
    PermutationHits(yy, x);
    var j :| 0 <= j < |yy| && yy[j] == x;
    IndexIs(yy, x, j);
  }

  /** The lowest digit of a run of z > 0: one counts 1, the other 2. */
  function Digit(z: nat): int { if z % 2 == 1 then RUNA else RUNB }

  /** A run of z front symbols, least significant digit first. */
  function RunCode(z: nat): seq<int> {
    if z == 0 then [] else [Digit(z)] + RunCode((z - 1) / 2)
  }

  /** A run never takes more digits than it is long. */
  lemma {:induction false} RunCodeShort(z: nat)
    ensures |RunCode(z)| <= z
  {
    if z > 0 { RunCodeShort((z - 1) / 2); }
  }

  lemma {:induction false} RunDigits(z: nat)
    ensures forall k :: 0 <= k < |RunCode(z)| ==> RunCode(z)[k] == RUNA || RunCode(z)[k] == RUNB
  {
    if z > 0 { RunDigits((z - 1) / 2); }
  }

  /** What the decoder adds up: digit k counts 1 or 2 times 2^k. */
  function RunValue(r: seq<int>): int {
    if |r| == 0 then 0 else (r[0] + 1) + 2 * RunValue(r[1..])
  }

  lemma RunValueCons(d: int, t: seq<int>)
    ensures RunValue([d] + t) == d + 1 + 2 * RunValue(t)
  {
    assert ([d] + t)[1..] == t;
  }

  /** Run coding is lossless. */
  lemma {:induction false} RunRoundTrip(z: nat)
    ensures RunValue(RunCode(z)) == z
  {
    if z > 0 {
      RunRoundTrip((z - 1) / 2);
      RunValueCons(Digit(z), RunCode((z - 1) / 2));
    }
  }

  /** A run of z takes k digits only if z >= 2^k - 1, so the decoder's guard against large runs
      leaves every legitimate run alone. */
  lemma {:induction false} RunLengthBound(z: nat)
    ensures z + 1 >= Pow2(|RunCode(z)|)
  {
    if z > 0 { RunLengthBound((z - 1) / 2); }
  }

  /** The list holds the numbers below its length, and the column only such numbers. */
  ghost predicate Codable(l: seq<int>, yy: seq<int>) {
    |yy| > 0 && IsPermutation(yy) && InRange(l, |yy|)
  }

  /** The symbols for the rest l of the column, from list yy with z front symbols pending. */
  ghost function Encode(l: seq<int>, yy: seq<int>, z: nat): seq<int>
    requires Codable(l, yy)
    decreases |l|
  {
    if |l| == 0 then RunCode(z)
    else if l[0] == yy[0] then Encode(l[1..], yy, z + 1)
    else
      MovedToFront(yy, l[0]);
      RunCode(z) + [Index(yy, l[0]) + 1] + Encode(l[1..], ToFront(yy, Index(yy, l[0])), 0)
  }

  /** Moving to the front keeps the entries. */
  lemma ToFrontPermutation(yy: seq<int>, j: int)
    requires 0 <= j < |yy| && IsPermutation(yy)
    ensures IsPermutation(ToFront(yy, j))
  {
    var r := ToFront(yy, j);
    assert forall k :: 0 <= k < |r| ==> r[k] == if k == 0 then yy[j] else if k <= j then yy[k - 1] else yy[k];
  }

  lemma MovedToFront(yy: seq<int>, x: int)
    requires IsPermutation(yy) && 0 <= x < |yy|
    ensures Index(yy, x) < |yy| && yy[Index(yy, x)] == x && IsPermutation(ToFront(yy, Index(yy, x)))
  {
    IndexFound(yy, x);
    ToFrontPermutation(yy, Index(yy, x));
  }

  /** Finds x in yy[..n] and moves it to the front, shifting as it goes. */
  method RotateToFront(yy: array<int>, n: nat, x: int) returns (j: int)
    requires n <= yy.Length && IsPermutation(yy[..n]) && 0 <= x < n && yy[0] != x
    modifies yy
    ensures 0 < j < n && j == Index(old(yy[..n]), x) && yy[..n] == ToFront(old(yy[..n]), j)
  {
    ghost var was := yy[..n];
    ghost var at := Index(was, x);
    IndexFound(was, x);
    var rtmp := yy[1];
    yy[1] := yy[0];
    j := 1;
    while x != rtmp
      invariant 1 <= j <= at && rtmp == was[j] && forall k :: 0 <= k < j ==> was[k] != x
      invariant yy[0] == was[0]
      invariant forall k :: 1 <= k <= j ==> yy[k] == was[k - 1]
      invariant forall k :: j < k < n ==> yy[k] == was[k]
      decreases at - j
    {
      j := j + 1;
      var rtmp2 := rtmp;
      rtmp := yy[j];
      yy[j] := rtmp2;
    }
    yy[0] := rtmp;
    IndexIs(was, x, j);
    assert yy[..n] == ToFront(was, j);
  }

  /** Pointer i of storage read as 32-bit words, low half first. */
  function Pointer(arr1: seq<int>, i: int): int
    requires 0 <= i && 2 * i + 1 < |arr1|
  {
    arr1[2 * i] + 0x10000 * arr1[2 * i + 1]
  }

  /** The pointers from i on are intact. */
  ghost predicate PointersFrom(arr1: seq<int>, ptr: seq<int>, i: int) {
    && |arr1| == 2 * |ptr|
    && forall k :: 0 <= i <= k < |ptr| ==> Pointer(arr1, k) == ptr[k]
  }

  /** Halves written below w do not touch the pointers from i on, if w <= 2 * i. */
  lemma WrittenBelow(was: seq<int>, now: seq<int>, ptr: seq<int>, i: nat, w: nat)
    requires PointersFrom(was, ptr, i) && |now| == |was| && w <= 2 * i && w <= |was| && now[w..] == was[w..]
    ensures PointersFrom(now, ptr, i)
  {
    forall k | i <= k < |ptr| ensures Pointer(now, k) == ptr[k] {
      assert Pointer(was, k) == ptr[k];
      assert now[2 * k] == now[w..][2 * k - w] && now[2 * k + 1] == now[w..][2 * k + 1 - w];
      assert was[2 * k] == was[w..][2 * k - w] && was[2 * k + 1] == was[w..][2 * k + 1 - w];
    }
  }

  /** now is was with code written at wr. */
  ghost predicate Overwritten(was: seq<int>, now: seq<int>, wr: nat, code: seq<int>) {
    && |now| == |was| && wr + |code| <= |was|
    && (forall k :: 0 <= k < wr ==> now[k] == was[k])
    && (forall k :: wr <= k < wr + |code| ==> now[k] == code[k - wr])
    && (forall k :: wr + |code| <= k < |was| ==> now[k] == was[k])
  }

  lemma OverwrittenSlices(was: seq<int>, now: seq<int>, wr: nat, code: seq<int>)
    requires Overwritten(was, now, wr, code)
    ensures now[..wr + |code|] == was[..wr] + code && now[wr + |code|..] == was[wr + |code|..]
  {
  }

  lemma OverwrittenMore(was: seq<int>, now: seq<int>, wr: nat, code: seq<int>, d: nat)
    requires wr + |code| <= |was| && d < |code| && Overwritten(was, now, wr, code[..d])
    ensures Overwritten(was, now[wr + d := code[d]], wr, code[..d + 1])
  {
  }

  /** Writes the digits of a pending run. */
  method WriteRun(arr1: array<int>, wr0: nat, zPend: nat) returns (wr: nat)
    requires wr0 + |RunCode(zPend)| <= arr1.Length
    modifies arr1
    ensures wr == wr0 + |RunCode(zPend)| && Overwritten(old(arr1[..]), arr1[..], wr0, RunCode(zPend))
  {
    wr := wr0;
    if zPend > 0 {
      var p: nat := zPend - 1;
      ghost var was, code, d := arr1[..], RunCode(zPend), 0;
      assert code[0..] == RunCode(p + 1);
      while true
        invariant 0 <= d < |code| && wr == wr0 + d && code[d..] == RunCode(p + 1)
        invariant Overwritten(was, arr1[..], wr0, code[..d])
        decreases p
      {
        NextDigit(code, d, p + 1);
        OverwrittenMore(was, arr1[..], wr0, code, d);
        Put(arr1, wr, if p % 2 == 1 then RUNB else RUNA);
        wr, d := wr + 1, d + 1;
        if p < 2 { break; }
        p := (p - 2) / 2;
      }
      assert code[..d] == code;
    }
  }

  /** A store, in terms of the sequence before it. */
  method Put(a: array<int>, w: nat, v: int)
    requires w < a.Length
    modifies a
    ensures a[..] == old(a[..])[w := v]
  {
    a[w] := v;
  }

  /** Writes the pending run and the place of x in the list, and moves x to the front. */
  method WriteSymbol(arr1: array<int>, wr0: nat, zPend: nat, yy: array<int>, n: nat, x: int) returns (wr: nat)
    requires arr1 != yy && wr0 + |RunCode(zPend)| < arr1.Length
    requires n <= yy.Length && IsPermutation(yy[..n]) && 0 <= x < n && yy[0] != x
    modifies arr1, yy
    ensures Index(old(yy[..n]), x) < n
    ensures yy[..n] == ToFront(old(yy[..n]), Index(old(yy[..n]), x))
    ensures wr == wr0 + |RunCode(zPend)| + 1 && wr <= arr1.Length
    ensures arr1[..wr] == old(arr1[..wr0]) + RunCode(zPend) + [Index(old(yy[..n]), x) + 1]
    ensures arr1[wr..] == old(arr1[wr..])
  {
    ghost var was, list := arr1[..], yy[..n];
    wr := WriteRun(arr1, wr0, zPend);
    ghost var now := arr1[..];
    OverwrittenSlices(was, now, wr0, RunCode(zPend));
    var j := RotateToFront(yy, n, x);
    assert arr1[..] == now;
    Put(arr1, wr, j + 1);
    assert arr1[..wr + 1] == now[..wr] + [j + 1];
    assert arr1[wr + 1..] == now[wr..][1..] == was[wr..][1..] == was[wr + 1..];
    wr := wr + 1;
  }

  lemma NextDigit(code: seq<int>, d: nat, q: nat)
    requires d < |code| && q > 0 && code[d..] == RunCode(q)
    ensures code[d] == Digit(q) && code[d + 1..] == RunCode((q - 1) / 2)
    ensures code[..d + 1] == code[..d] + [code[d]] && (d + 1 == |code| <==> q <= 2)
  {
    assert code[d..][0] == code[d] && code[d..][1..] == code[d + 1..];
    if q > 2 { assert |RunCode((q - 1) / 2)| > 0; }
  }

  /** One character of the column. */
  lemma EncodeStep(l: seq<int>, i: int, yy: seq<int>, z: nat)
    requires 0 <= i < |l| && Codable(l, yy)
    ensures l[i] == yy[0] ==> Encode(l[i..], yy, z) == Encode(l[i + 1..], yy, z + 1)
    ensures l[i] != yy[0] ==>
              var j := Index(yy, l[i]);
              && j < |yy| && Codable(l, ToFront(yy, j))
              && Encode(l[i..], yy, z) == RunCode(z) + [j + 1] + Encode(l[i + 1..], ToFront(yy, j), 0)
  {
    assert l[i..][0] == l[i] && l[i..][1..] == l[i + 1..];
    if l[i] != yy[0] { MovedToFront(yy, l[i]); }
  }

  /** The state of the coder before character i: what is written, then what the rest will add. */
  ghost predicate Coding(l: seq<int>, yy0: seq<int>, i: int, yy: seq<int>, z: nat, written: seq<int>) {
    && 0 <= i <= |l| && Codable(l, yy0) && Codable(l, yy)
    && Encode(l, yy0, 0) == written + Encode(l[i..], yy, z)
  }

  lemma Regroup(a: seq<int>, b: seq<int>, c: seq<int>, d: seq<int>)
    ensures a + (b + c + d) == (a + b + c) + d
  {
  }

  lemma CodingStep(l: seq<int>, yy0: seq<int>, i: int, yy: seq<int>, z: nat, written: seq<int>)
    requires Coding(l, yy0, i, yy, z, written) && i < |l|
    ensures l[i] == yy[0] ==> Coding(l, yy0, i + 1, yy, z + 1, written)
    ensures l[i] != yy[0] ==>
              var j := Index(yy, l[i]);
              j < |yy| && Coding(l, yy0, i + 1, ToFront(yy, j), 0, written + RunCode(z) + [j + 1])
  {
    EncodeStep(l, i, yy, z);
    if l[i] != yy[0] {
      var j := Index(yy, l[i]);
      Regroup(written, RunCode(z), [j + 1], Encode(l[i + 1..], ToFront(yy, j), 0));
    }
  }

  lemma CodingStart(l: seq<int>, n: nat)
    requires InRange(l, n) && n > 0
    ensures Coding(l, Iota(n), 0, Iota(n), 0, [])
  {
    assert l[0..] == l;
  }

  lemma CodingEnd(l: seq<int>, yy0: seq<int>, yy: seq<int>, z: nat, written: seq<int>)
    requires Coding(l, yy0, |l|, yy, z, written)
    ensures Encode(l, yy0, 0) == written + RunCode(z)
  {
    assert l[|l|..] == [];
  }

  /** Codes one character: either it prolongs the pending run, or the run and the character are
      written. What is written stays below the next unread pointer. */
  method CodeOne(arr1: array<int>, wr0: nat, z0: nat, yy: array<int>, nInUse: nat, i: nat, lli: int,
                 ghost ptr: seq<int>, ghost l: seq<int>, ghost yy0: seq<int>) returns (wr: nat, zPend: nat)
    requires arr1 != yy && 0 < nInUse <= yy.Length && i < |l| == |ptr| && lli == l[i] && wr0 + z0 <= i
    requires PointersFrom(arr1[..], ptr, i)
    requires Coding(l, yy0, i, yy[..nInUse], z0, arr1[..wr0])
    modifies arr1, yy
    ensures wr + zPend <= i + 1 && PointersFrom(arr1[..], ptr, i + 1)
    ensures Coding(l, yy0, i + 1, yy[..nInUse], zPend, arr1[..wr])
  {
    wr, zPend := wr0, z0;
    CodingStep(l, yy0, i, yy[..nInUse], zPend, arr1[..wr]);
    if yy[0] == lli {
      zPend := zPend + 1;
    } else {
      ghost var all := arr1[..];
      RunCodeShort(zPend);
      wr := WriteSymbol(arr1, wr, zPend, yy, nInUse, lli);
      zPend := 0;
      WrittenBelow(all, arr1[..], ptr, i + 1, wr);
    }
  }

  /** generateMTFValues: the symbols of the column l, ended by EOB, take the place of the
      pointers that lead to it. unseqToSeq numbers the bytes in use. */
  method GenerateMtfValues(arr1: array<int>, block: seq<Byte>, unseqToSeq: seq<int>, nInUse: nat,
                           ghost ptr: seq<int>, ghost l: seq<int>) returns (nMTF: nat)
    requires 0 < |block| == |ptr| == |l| && |unseqToSeq| == 256 && 0 < nInUse <= 256
    requires InRange(ptr, |ptr|) && PointersFrom(arr1[..], ptr, 0)
    requires forall i :: 0 <= i < |l| ==>
               l[i] == unseqToSeq[block[if ptr[i] == 0 then |ptr| - 1 else ptr[i] - 1]]
    requires InRange(l, nInUse)
    modifies arr1
    ensures Codable(l, Iota(nInUse))
    ensures 0 < nMTF <= arr1.Length && nMTF <= |l| + 1
    ensures arr1[..nMTF] == Encode(l, Iota(nInUse), 0) + [nInUse + 1]
  {
    var yy := new int[256](i => i);
    var wr: nat, zPend: nat := 0, 0;
    assert yy[..nInUse] == Iota(nInUse) && arr1[..0] == [];
    CodingStart(l, nInUse);
    for i := 0 to |block|
      invariant fresh(yy) && yy.Length == 256
      invariant wr + zPend <= i && PointersFrom(arr1[..], ptr, i)
      invariant Coding(l, Iota(nInUse), i, yy[..nInUse], zPend, arr1[..wr])
    {
      var lli := ColumnByte(arr1, block, unseqToSeq, i, ptr, l);
      wr, zPend := CodeOne(arr1, wr, zPend, yy, nInUse, i, lli, ptr, l, Iota(nInUse));
    }
    CodingEnd(l, Iota(nInUse), yy[..nInUse], zPend, arr1[..wr]);
    RunCodeShort(zPend);
    nMTF := WriteEnd(arr1, wr, zPend, nInUse + 1);
  }

  /** The i-th byte of the column, by way of its pointer. */
  method ColumnByte(arr1: array<int>, block: seq<Byte>, unseqToSeq: seq<int>, i: nat, ghost ptr: seq<int>, ghost l: seq<int>) returns (lli: int)
    requires i < |block| == |ptr| == |l| && |unseqToSeq| == 256 && InRange(ptr, |ptr|) && PointersFrom(arr1[..], ptr, i)
    requires forall i :: 0 <= i < |l| ==> l[i] == unseqToSeq[block[if ptr[i] == 0 then |ptr| - 1 else ptr[i] - 1]]
    ensures lli == l[i]
  {
    assert Pointer(arr1[..], i) == ptr[i];
    var j := arr1[2 * i] + 0x10000 * arr1[2 * i + 1] - 1;
    if j < 0 { j := j + |block|; }
    lli := unseqToSeq[block[j]];
  }

  /** Writes the last pending run and the end marker. */
  method WriteEnd(arr1: array<int>, wr0: nat, zPend: nat, eob: int) returns (wr: nat)
    requires wr0 + |RunCode(zPend)| < arr1.Length
    modifies arr1
    ensures wr == wr0 + |RunCode(zPend)| + 1 && wr <= arr1.Length
    ensures arr1[..wr] == old(arr1[..wr0]) + RunCode(zPend) + [eob]
  {
    ghost var was := arr1[..];
    wr := WriteRun(arr1, wr0, zPend);
    ghost var now := arr1[..];
    OverwrittenSlices(was, now, wr0, RunCode(zPend));
    Put(arr1, wr, eob);
    assert arr1[..wr + 1] == now[..wr] + [eob];
    wr := wr + 1;
  }
}
