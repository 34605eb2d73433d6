/** Reading the symbols of a block one at a time: GET_MTF_VAL of decompress.c. */
module SymbolReader {
  import opened Sequences
  import opened Bits
  import opened BitIO
  import opened CanonicalCode
  import opened SymbolGroups

  /** A definition guarded by "for every u with UnfoldTables(u)" stays folded for the verifier until
      UnfoldTables is mentioned. */
  ghost predicate UnfoldTables(u: int) { true }

  /** The bits ahead begin with the next symbol's code, and with no other. */
  lemma NextCode(syms: seq<int>, lens: seq<seq<int>>, sel: seq<int>, alphaSize: nat, i: nat, tail: seq<bool>)
    requires Coded(syms, lens, sel, alphaSize) && i < |syms| && i / GroupSize < |sel|
    ensures var z, len, v := SymbolBits(syms, lens, sel, alphaSize, i) + tail, TableFor(lens, sel, i), syms[i];
      Matches(len, v, z) && z[len[v]..] == SymbolBits(syms, lens, sel, alphaSize, i + 1) + tail
      && forall j :: 0 <= j < |len| && Matches(len, j, z) ==> j == v
  {
    assert UnfoldKraft(0);
    var len, after := TableFor(lens, sel, i), SymbolBits(syms, lens, sel, alphaSize, i + 1);
    Assoc(CodeBits(len, syms[i]), after, tail);
    CodeThenAnything(len, LongestCode, syms[i], after + tail);
  }

  class Reader {
    const r: BitReader
    const tables: seq<Table>
    const selector: seq<int>
    ghost const lens: seq<seq<int>>
    ghost const alphaSize: nat
    var groupNo: int
    var groupPos: int

    /** The tables decode the lengths; kept folded until unfolded. */
    ghost predicate Ready() {
      && |tables| == |lens| && InRange(selector, |tables|)
      && forall u {:trigger UnfoldTables(u)} :: UnfoldTables(u) ==>
           forall t :: 0 <= t < |lens| ==> |lens[t]| == alphaSize && Decodes(tables[t], lens[t])
    }

    ghost predicate Valid()
      reads this, r
    {
      Ready() && r.Valid() && -1 <= groupNo < |selector| && 0 <= groupPos < GroupSize && (groupPos > 0 ==> groupNo >= 0)
    }

    /** How many symbols have been read. */
    ghost function Position(): int
      reads this
    {
      GroupSize * (groupNo + 1) - groupPos
    }

    /** The bits ahead are the codes of the symbols from here on, then tail; kept folded. */
    ghost predicate Expects(syms: seq<int>, tail: seq<bool>)
      reads this, r
    {
      0 <= Position() <= |syms| && forall u {:trigger UnfoldTables(u)} :: UnfoldTables(u) ==> Ahead(syms, tail)
    }

    ghost predicate Ahead(syms: seq<int>, tail: seq<bool>)
      requires 0 <= Position() <= |syms|
      reads this, r
    {
      && Coded(syms, lens, selector, alphaSize)
      && r.rest == SymbolBits(syms, lens, selector, alphaSize, Position()) + tail
    }

    constructor (r: BitReader, tables: seq<Table>, selector: seq<int>, ghost lens: seq<seq<int>>, ghost alphaSize: nat)
      requires r.Valid() && |tables| == |lens| && InRange(selector, |tables|)
      requires forall t :: 0 <= t < |lens| ==> |lens[t]| == alphaSize && Decodes(tables[t], lens[t])
      ensures Valid() && Position() == 0 && this.r == r && this.lens == lens && this.selector == selector && this.alphaSize == alphaSize
    {
      this.r, this.tables, this.selector, this.lens, this.alphaSize := r, tables, selector, lens, alphaSize;
      groupNo, groupPos := -1, 0;
    }

    lemma Begin(syms: seq<int>, tail: seq<bool>)
      requires Position() == 0 && Coded(syms, lens, selector, alphaSize)
      requires r.rest == SymbolBits(syms, lens, selector, alphaSize, 0) + tail
      ensures Expects(syms, tail)
    {
    }

    lemma End(syms: seq<int>, tail: seq<bool>)
      requires Expects(syms, tail) && Position() == |syms|
      ensures r.rest == tail
    {
      assert UnfoldTables(0);
      assert [] + tail == tail;
    }

    /** Decodes with the table of the group. */
    method Decode(gSel: int, ghost syms: seq<int>, ghost i: nat, ghost tail: seq<bool>) returns (sym: Fetch<nat>)
      requires Ready() && r.Valid() && 0 <= gSel < |tables|
      modifies r
      ensures r.Valid() && |r.rest| <= |old(r.rest)|
      ensures sym.Got? ==> sym.value < alphaSize && |r.rest| < |old(r.rest)|
      ensures (Coded(syms, lens, selector, alphaSize) && i < |syms| && i / GroupSize < |selector| && selector[i / GroupSize] == gSel
               && old(r.rest) == SymbolBits(syms, lens, selector, alphaSize, i) + tail)
              ==> sym == Got(syms[i]) && r.rest == SymbolBits(syms, lens, selector, alphaSize, i + 1) + tail
    {
      ghost var z := r.rest;
      assert UnfoldTables(0);
      ghost var len := lens[gSel];
      sym := NextSymbol(r, tables[gSel], len);
      if Coded(syms, lens, selector, alphaSize) && i < |syms| && i / GroupSize < |selector| && selector[i / GroupSize] == gSel
         && z == SymbolBits(syms, lens, selector, alphaSize, i) + tail
      {
        NextCode(syms, lens, selector, alphaSize, i, tail);
      }
    }

    /** GET_MTF_VAL. */
    method Next(ghost syms: seq<int>, ghost tail: seq<bool>) returns (sym: Fetch<nat>)
      requires Valid()
      modifies this, r
      ensures Valid() && |r.rest| <= |old(r.rest)|
      ensures sym.Got? ==> sym.value < alphaSize && |r.rest| < |old(r.rest)|
      ensures old(Expects(syms, tail)) && old(Position()) < |syms|
        ==> sym == Got(syms[old(Position())]) && Expects(syms, tail) && Position() == old(Position()) + 1
    {
      assert UnfoldTables(0);
      ghost var i := Position();
      if groupPos == 0 {
        if groupNo + 1 >= |selector| {
          return DataError;
        }
        groupNo := groupNo + 1;
        groupPos := GroupSize;
      }
      GroupIndex(groupNo, i);
      groupPos := groupPos - 1;
      sym := Decode(selector[groupNo], syms, i, tail);
    }
  }
}
