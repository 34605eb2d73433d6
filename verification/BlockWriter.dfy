/** Writing the body of a block: generateMTFValues, sendMTFValues and their caller
    BZ2_compressBlock in compress.c. */
module BlockWriter {
  import opened Sequences
  import opened Bits
  import opened BitIO
  import opened Rotations
  import opened InverseBwt
  import opened FallbackBuckets
  import opened FallbackSort
  import opened MoveToFront
  import opened MappingTable
  import opened SelectorList
  import opened CodingTables
  import opened SymbolGroups
  import opened BlockParts

  function ByteAt(b: seq<Byte>, i: int): Byte {
    if 0 <= i < |b| then b[i] else 0
  }

  function WordAt(b: seq<Byte>, j: int): int {
    Word(ByteAt(b, 4 * j), ByteAt(b, 4 * j + 1), ByteAt(b, 4 * j + 2), ByteAt(b, 4 * j + 3))
  }

  lemma WordAtByte(b: seq<Byte>, i: int)
    requires 0 <= i < |b|
    ensures ByteOf(WordAt(b, i / 4), i % 4) == b[i]
  {
    var j := i / 4;
    WordBytes(ByteAt(b, 4 * j), ByteAt(b, 4 * j + 1), ByteAt(b, 4 * j + 2), ByteAt(b, 4 * j + 3));
  }

  /** The block's bytes as the 32-bit words they share storage with. */
  method PackWords(b: seq<Byte>) returns (words: array<int>)
    ensures fresh(words) && words.Length == |b| && Bytes(words[..], |b|) == b
  {
    words := new int[|b|](j => WordAt(b, j));
    forall i | 0 <= i < |b| ensures ByteOf(words[i / 4], i % 4) == b[i] {
      WordAtByte(b, i);
    }
  }

  /** Sorts the rotations of a block. */
  method SortBlock(b: seq<Byte>) returns (ptr: seq<int>, origPtr: int)
    requires 0 < |b| <= 900000
    ensures SortsRotations(b, ptr) && 0 <= origPtr < |b| && ptr[origPtr] == 0
  {
    var words := PackWords(b);
    var order := new int[|b|];
    var ftab := new bool[|b| + 96];
    origPtr := BlockSort(order, words, ftab, |b|, b);
    ptr := order[..];
  }

  /** The pointers as the 16-bit halves the symbols are written over. */
  method Halves(ptr: seq<int>) returns (arr1: array<int>)
    ensures fresh(arr1) && PointersFrom(arr1[..], ptr, 0)
  {
    arr1 := new int[2 * |ptr|];
    for i := 0 to |ptr|
      invariant forall k :: 0 <= k < i ==> arr1[2 * k] == ptr[k] % 0x10000 && arr1[2 * k + 1] == ptr[k] / 0x10000
    {
      arr1[2 * i] := ptr[i] % 0x10000;
      arr1[2 * i + 1] := ptr[i] / 0x10000;
    }
  }

  /** The symbols of a sorted block. */
  method BlockSymbols(b: seq<Byte>, ptr: seq<int>, inUse: seq<bool>, ghost p: Parts) returns (mtfv: seq<int>, nInUse: nat)
    requires Sorted(p) && p.b == b && p.ptr == ptr && inUse == InUse(b)
    ensures nInUse == Kinds(b) && 0 < nInUse <= 256 && mtfv == MtfValues(p) && 0 < |mtfv| <= |b| + 1
  {
    var unseqToSeq;
    unseqToSeq, nInUse := MakeMapsE(inUse);
    ghost var l := Numbered(ColumnOf(p), inUse);
    ColumnCodable(p);
    ColumnOccurs(b, ptr);
    var arr1 := Halves(ptr);
    forall i | 0 <= i < |l| ensures l[i] == unseqToSeq[b[if ptr[i] == 0 then |ptr| - 1 else ptr[i] - 1]] {
      assert ColumnOf(p)[i] == b[Pred(ptr[i], |b|)];
    }
    var nMTF := GenerateMtfValues(arr1, b, unseqToSeq, nInUse, ptr, l);
    mtfv := arr1[..nMTF];
  }

  lemma {:induction false} EncodeInRange(l: seq<int>, yy: seq<int>, z: nat)
    requires Codable(l, yy)
    ensures InRange(Encode(l, yy, z), |yy| + 2)
    decreases |l|
  {
    RunDigits(z);
    if |l| > 0 {
      if l[0] == yy[0] {
        EncodeInRange(l[1..], yy, z + 1);
      } else {
        MovedToFront(yy, l[0]);
        EncodeInRange(l[1..], ToFront(yy, Index(yy, l[0])), 0);
      }
    }
  }

  lemma SymbolsInRange(p: Parts)
    requires Sorted(p)
    ensures InRange(MtfValues(p), Kinds(p.b) + 2)
  {
    ColumnCodable(p);
    EncodeInRange(Numbered(ColumnOf(p), InUse(p.b)), Iota(Kinds(p.b)), 0);
  }

  /** mtfFreq: how often each symbol occurs. */
  method CountSymbols(mtfv: seq<int>, alphaSize: nat) returns (mtfFreq: seq<int>)
    requires InRange(mtfv, alphaSize)
    ensures |mtfFreq| == alphaSize && forall v :: 0 <= v < alphaSize ==> mtfFreq[v] == Count(mtfv, v)
  {
    mtfFreq := seq(alphaSize, _ => 0);
    for i := 0 to |mtfv|
      invariant |mtfFreq| == alphaSize && forall v :: 0 <= v < alphaSize ==> mtfFreq[v] == Count(mtfv[..i], v)
    {
      forall v | 0 <= v < alphaSize ensures Count(mtfv[..i + 1], v) == Count(mtfv[..i], v) + (if mtfv[i] == v then 1 else 0) {
        CountNext(mtfv, i, v);
      }
      mtfFreq := mtfFreq[mtfv[i] := mtfFreq[mtfv[i]] + 1];
    }
    assert mtfv[..|mtfv|] == mtfv;
  }

  /** Division as C does it, towards zero. */
  function Quotient(a: int, n: int): int
    requires n > 0
  {
    if a >= 0 then a / n else -((-a) / n)
  }

  const LesserCost: int := 0
  const GreaterCost: int := 15

  /** The first coding tables: each favours its own range of symbols, of about equal frequency. */
  method InitialTables(mtfFreq: seq<int>, nMTF: nat, nGroups: nat, alphaSize: nat) returns (lens: seq<seq<int>>)
    requires |mtfFreq| == alphaSize
    ensures |lens| == nGroups
    ensures forall t, v :: 0 <= t < nGroups && 0 <= v < alphaSize ==> |lens[t]| == alphaSize && (lens[t][v] == LesserCost || lens[t][v] == GreaterCost)
    ensures forall t :: 0 <= t < nGroups ==> |lens[t]| == alphaSize
  {
    lens := [];
    var nPart, remF, gs := nGroups, nMTF as int, 0;
    while nPart > 0
      invariant 0 <= nPart <= nGroups && 0 <= gs <= alphaSize && |lens| == nGroups - nPart
      invariant forall t :: 0 <= t < |lens| ==> |lens[t]| == alphaSize
      invariant forall t, v :: 0 <= t < |lens| && 0 <= v < alphaSize ==> lens[t][v] == LesserCost || lens[t][v] == GreaterCost
    {
      var tFreq := Quotient(remF, nPart);
      var ge, aFreq := gs - 1, 0;
      while aFreq < tFreq && ge < alphaSize - 1
        invariant gs - 1 <= ge <= alphaSize - 1
        decreases alphaSize - ge
      {
        ge := ge + 1;
        aFreq := aFreq + mtfFreq[ge];
      }
      if ge > gs && nPart != nGroups && nPart != 1 && (nGroups - nPart) % 2 == 1 {
        aFreq := aFreq - mtfFreq[ge];
        ge := ge - 1;
      }
      lens := [seq(alphaSize, v => if gs <= v <= ge then LesserCost else GreaterCost)] + lens;
      nPart := nPart - 1;
      gs := ge + 1;
      remF := remF - aFreq;
    }
  }

  /** The coding tables and selectors for the symbols. */
  method MakeTables(mtfv: seq<int>, alphaSize: nat) returns (selector: seq<int>, lens: seq<seq<int>>)
    requires 2 <= alphaSize <= 258 && InRange(mtfv, alphaSize) && 0 < |mtfv| <= 900001
    ensures 2 <= |lens| <= 6 && Coded(mtfv, lens, selector, alphaSize) && 0 < |selector| <= 18001
    ensures Fitted(mtfv, lens, selector, alphaSize)
  {
    var mtfFreq := CountSymbols(mtfv, alphaSize);
    var start := InitialTables(mtfFreq, |mtfv|, GroupCount(|mtfv|), alphaSize);
    selector, lens := ChooseTables(mtfv, start, alphaSize);
  }

  /** The transmitting part of sendMTFValues. */
  method SendTables(w: BitWriter, mtfv: seq<int>, inUse: seq<bool>, nInUse: nat, lens: seq<seq<int>>, selector: seq<int>, ghost p: Parts)
    requires w.Valid() && Complete(p) && mtfv == MtfValues(p) && inUse == InUse(p.b) && nInUse == Kinds(p.b) <= 256
    requires lens == p.lens && selector == p.sel
    modifies w
    ensures w.Appended(Payload(p))
  {
    CodedTables(p);
    ghost var a, b, c, d := MappingBits(InUse(p.b)), SelectorBits(|p.lens|, p.sel), TablesPart(p), CodesPart(p);
    WriteMapping(w, inUse);
    WriteSelectors(w, |lens|, selector);
    WriteTables(w, lens, nInUse + 2);
    WriteSymbols(w, mtfv, lens, selector, nInUse + 2);
    Chain(old(w.written), a, b, c, d);
  }

  lemma Chain(x: seq<bool>, a: seq<bool>, b: seq<bool>, c: seq<bool>, d: seq<bool>)
    ensures x + a + b + c + d == x + (a + (b + (c + d)))
  {
  }

  /** Sorts the block and decides how to code it. */
  method PlanBlock(b: seq<Byte>, inUse: seq<bool>)
      returns (origPtr: int, mtfv: seq<int>, nInUse: nat, lens: seq<seq<int>>, selector: seq<int>, ghost p: Parts)
    requires 0 < |b| <= 900000 && inUse == InUse(b)
    ensures Complete(p) && p.b == b && p.origPtr == origPtr && p.lens == lens && p.sel == selector
    ensures mtfv == MtfValues(p) && nInUse == Kinds(b) <= 256
  {
    var ptr;
    ptr, origPtr := SortBlock(b);
    ghost var sorted := Parts(b, ptr, origPtr, [], []);
    SymbolsInRange(sorted);
    mtfv, nInUse := BlockSymbols(b, ptr, inUse, sorted);
    selector, lens := MakeTables(mtfv, nInUse + 2);
    p := sorted.(lens := lens, sel := selector);
    assert MtfValues(p) == MtfValues(sorted);
  }

  /** The randomisation bit, always clear, and the row of the block. */
  method WriteStart(w: BitWriter, origPtr: int)
    requires w.Valid() && 0 <= origPtr < 900000
    modifies w
    ensures w.Appended([false] + ToBits(origPtr, 24))
  {
    w.PutBit(false);
    assert origPtr < Pow2(24) by { Pow2Table(); }
    w.Write(24, origPtr);
    Assoc(old(w.written), [false], ToBits(origPtr, 24));
  }

  /** The body of a block. */
  method WriteBody(w: BitWriter, b: seq<Byte>, inUse: seq<bool>) returns (ghost p: Parts)
    requires w.Valid() && 0 < |b| <= 900000 && inUse == InUse(b)
    modifies w
    ensures Complete(p) && p.b == b && w.Appended(BodyBits(p))
  {
    var origPtr, mtfv, nInUse, lens, selector;
    origPtr, mtfv, nInUse, lens, selector, p := PlanBlock(b, inUse);
    WriteStart(w, origPtr);
    SendTables(w, mtfv, inUse, nInUse, lens, selector, p);
    ghost var start := [false] + ToBits(origPtr, 24);
    Assoc(old(w.written), start, Payload(p));
    Assoc([false], ToBits(origPtr, 24), Payload(p));
  }
}
