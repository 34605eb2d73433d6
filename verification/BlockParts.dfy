/** What a compressed block consists of, as bits: the body BZ2_compressBlock of compress.c writes
    after the block's checksum. */
module BlockParts {
  import opened Sequences
  import opened Bits
  import opened BitIO
  import opened Rotations
  import opened InverseBwt
  import opened MoveToFront
  import opened MappingTable
  import opened SelectorList
  import opened CodingTables
  import opened SymbolGroups
  import opened ColumnReader

  /** The choices behind a compressed block: the block, its sorted rotations, the row of the
      block itself, the coding tables and the selectors. */
  datatype Parts = Parts(b: seq<Byte>, ptr: seq<int>, origPtr: int, lens: seq<seq<int>>, sel: seq<int>)

  /** The bytes that occur. */
  ghost function InUse(b: seq<Byte>): (u: seq<bool>)
    ensures |u| == 256 && forall c :: 0 <= c < 256 ==> u[c] == (Count(b, c) > 0)
  {
    seq(256, c requires 0 <= c < 256 => Count(b, c) > 0)
  }

  /** How many bytes occur. */
  ghost function Kinds(b: seq<Byte>): nat { |Used(InUse(b), 256)| }

  lemma Occurs(b: seq<Byte>, i: int)
    requires 0 <= i < |b|
    ensures InUse(b)[b[i]]
  {
    CountNext(b, i, b[i]);
    CountMonotone(b, i + 1, |b|, b[i]);
    assert b[..|b|] == b;
  }

  /** The number of a byte among those in use. */
  ghost function NumberOf(u: seq<bool>, c: int): nat
    requires 0 <= c < |u|
  {
    |Used(u, c)|
  }

  /** The last column, with its bytes numbered. */
  ghost function Numbered(l: seq<Byte>, u: seq<bool>): (s: seq<int>)
    requires |u| == 256
    ensures |s| == |l| && forall k :: 0 <= k < |l| ==> s[k] == NumberOf(u, l[k])
  {
    seq(|l|, k requires 0 <= k < |l| => NumberOf(u, l[k]))
  }

  ghost predicate AllIn(l: seq<Byte>, u: seq<bool>) {
    |u| == 256 && forall k :: 0 <= k < |l| ==> u[l[k]]
  }

  /** The bytes of a column come back from their numbers. */
  lemma NumbersBack(l: seq<Byte>, u: seq<bool>)
    requires AllIn(l, u)
    ensures InRange(Numbered(l, u), |Used(u, 256)|) && Gather(Used(u, 256), Numbered(l, u)) == l
    ensures InRange(Used(u, 256), 256)
  {
    UsedInRange(u, 256);
    forall k | 0 <= k < |l|
      ensures 0 <= Numbered(l, u)[k] < |Used(u, 256)| && Used(u, 256)[Numbered(l, u)[k]] == l[k]
    {
      UsedAt(u, l[k], 256);
    }
  }

  lemma ColumnOccurs(b: seq<Byte>, ptr: seq<int>)
    requires |ptr| == |b| && InRange(ptr, |b|)
    ensures AllIn(LastColumn(b, ptr), InUse(b))
  {
    forall k | 0 <= k < |b| ensures InUse(b)[LastColumn(b, ptr)[k]] {
      Occurs(b, Pred(ptr[k], |b|));
    }
  }

  /** The block is sorted and the start row found. */
  ghost predicate Sorted(p: Parts) {
    0 < |p.b| <= 900000 && SortsRotations(p.b, p.ptr) && 0 <= p.origPtr < |p.b| && p.ptr[p.origPtr] == 0
  }

  ghost function ColumnOf(p: Parts): (l: seq<Byte>)
    requires Sorted(p)
    ensures |l| == |p.b|
  {
    LastColumn(p.b, p.ptr)
  }

  /** The numbered column is fit to be coded. */
  lemma ColumnCodable(p: Parts)
    requires Sorted(p)
    ensures 0 < Kinds(p.b) <= 256
    ensures Codable(Numbered(ColumnOf(p), InUse(p.b)), Iota(Kinds(p.b)))
  {
    ColumnOccurs(p.b, p.ptr);
    NumbersBack(ColumnOf(p), InUse(p.b));
    assert 0 <= Numbered(ColumnOf(p), InUse(p.b))[0] < Kinds(p.b);
  }

  /** The symbols of the block. */
  ghost function MtfValues(p: Parts): seq<int>
    requires Sorted(p)
  {
    ColumnCodable(p);
    Encode(Numbered(ColumnOf(p), InUse(p.b)), Iota(Kinds(p.b)), 0) + [Kinds(p.b) + 1]
  }

  /** Everything a decoder checks holds; kept folded. */
  ghost predicate Written(p: Parts) {
    Sorted(p) && 2 <= |p.lens| <= 6 && InRange(p.sel, |p.lens|) && 0 < |p.sel| < 32768 && IsCoded(p)
  }

  /** And the decoder has room for the selectors, which it does not check. */
  ghost predicate Complete(p: Parts) { Written(p) && |p.sel| <= MaxSelectors }

  /** A definition guarded by "for every u with UnfoldParts(u)" stays folded for the verifier
      until UnfoldParts is mentioned. */
  ghost predicate UnfoldParts(u: int) { true }

  ghost predicate IsCoded(p: Parts)
    requires Sorted(p)
  {
    forall u {:trigger UnfoldParts(u)} :: UnfoldParts(u) ==> Coded(MtfValues(p), p.lens, p.sel, Kinds(p.b) + 2)
  }

  lemma CodedTables(p: Parts)
    requires Written(p)
    ensures Coded(MtfValues(p), p.lens, p.sel, Kinds(p.b) + 2) && Tables(p.lens, Kinds(p.b) + 2)
  {
    assert UnfoldParts(0);
  }

  /** The codes of the symbols. */
  ghost function CodesPart(p: Parts): seq<bool>
    requires Written(p)
  {
    CodedTables(p);
    SymbolBits(MtfValues(p), p.lens, p.sel, Kinds(p.b) + 2, 0)
  }

  ghost function TablesPart(p: Parts): seq<bool>
    requires Written(p)
  {
    CodedTables(p);
    TablesBits(p.lens, Kinds(p.b) + 2, 0)
  }

  /** The four tables. */
  ghost function Payload(p: Parts): seq<bool>
    requires Written(p)
  {
    MappingBits(InUse(p.b)) + (SelectorBits(|p.lens|, p.sel) + (TablesPart(p) + CodesPart(p)))
  }

  /** The body of a block: not randomised, the start row, and the four tables. */
  ghost function BodyBits(p: Parts): seq<bool>
    requires Written(p)
  {
    [false] + (ToBits(p.origPtr, 24) + Payload(p))
  }

  ghost function NoneChosen(n: nat): (s: seq<int>)
    ensures |s| == n && forall i :: 0 <= i < n ==> s[i] == 0
  {
    seq(n, _ => 0)
  }

  /** The block with n more selectors, which no symbol needs. */
  ghost function Padded(p: Parts, n: nat): Parts { p.(sel := p.sel + NoneChosen(n)) }

  /** Every block has forms with more selectors than a decoder has room for. */
  lemma PaddedIsWritten(p: Parts, n: nat)
    requires Complete(p) && MaxSelectors < |p.sel| + n < 32768
    ensures Written(Padded(p, n)) && !Complete(Padded(p, n))
  {
    assert UnfoldParts(0);
    var q := Padded(p, n);
    forall i | 0 <= i < |q.sel| ensures 0 <= q.sel[i] < |q.lens| {
      if i < |p.sel| { assert q.sel[i] == p.sel[i]; }
    }
    assert MtfValues(q) == MtfValues(p);
  }
}
