/** The column a decoder fills, with its counts and its move-to-front list: tt (or ll16),
    unzftab, mtfa and mtfbase of DState. */
module ColumnBuffer {
  import opened Sequences
  import opened MoveToFront
  import opened MtfCache

  /** A definition guarded by "for every u with UnfoldColumn(u)" stays folded for the verifier
      until UnfoldColumn is mentioned. */
  ghost predicate UnfoldColumn(u: int) { true }

  /** The counts of the characters of s. */
  ghost predicate Counted(unz: seq<int>, s: seq<int>) {
    |unz| == 256 && InRange(s, 256) && forall c :: 0 <= c < 256 ==> unz[c] == Count(s, c)
  }

  function Copies(c: int, n: nat): (r: seq<int>)
    ensures |r| == n && forall k :: 0 <= k < n ==> r[k] == c
  {
    seq(n, _ => c)
  }

  lemma {:induction false} CountCopies(s: seq<int>, c: int, n: nat, x: int)
    ensures Count(s + Copies(c, n), x) == Count(s, x) + (if x == c then n else 0)
  {
    if n == 0 {
      assert s + Copies(c, 0) == s;
    } else {
      CountCopies(s, c, n - 1, x);
      assert (s + Copies(c, n))[..|s| + n - 1] == s + Copies(c, n - 1);
    }
  }

  lemma CountedMore(unz: seq<int>, s: seq<int>, c: int, n: nat)
    requires Counted(unz, s) && 0 <= c < 256
    ensures Counted(unz[c := unz[c] + n], s + Copies(c, n))
  {
    forall x | 0 <= x < 256 ensures unz[c := unz[c] + n][x] == Count(s + Copies(c, n), x) {
      CountCopies(s, c, n, x);
    }
  }

  /** Moving within the first n entries leaves the others. */
  lemma ToFrontPrefix(v: seq<int>, n: int, j: int)
    requires 0 <= j < n <= |v|
    ensures ToFront(v, j)[..n] == ToFront(v[..n], j)
  {
  }

  class Column {
    const tt: array<int>
    const unzftab: array<int>
    const rows: MtfRows
    const seqToUnseq: seq<int>
    const nblockMAX: nat
    var nblock: nat
    /** The characters so far. */
    ghost var out: seq<int>
    /** The list of the bytes in use, most recent first. */
    ghost var yy: seq<int>

    ghost predicate Valid()
      reads this, tt, unzftab, rows.mtfa, rows.mtfbase
    {
      && |out| == nblock <= nblockMAX && |yy| == |seqToUnseq|
      && forall u {:trigger UnfoldColumn(u)} :: UnfoldColumn(u) ==> State()
    }

    ghost predicate State()
      reads this, tt, unzftab, rows.mtfa, rows.mtfbase
    {
      && Separate() && nblock <= nblockMAX <= tt.Length && out == tt[..nblock] && unzftab.Length == 256 && Counted(unzftab[..], out)
      && rows.Valid() && 0 < |seqToUnseq| <= 256 && InRange(seqToUnseq, 256)
      && yy == rows.List()[..|seqToUnseq|] && IsPermutation(yy)
    }

    ghost predicate Separate() {
      tt != unzftab && tt != rows.mtfa && tt != rows.mtfbase && unzftab != rows.mtfa && unzftab != rows.mtfbase
    }

    constructor (tt: array<int>, seqToUnseq: seq<int>, nblockMAX: nat)
      requires 0 < |seqToUnseq| <= 256 && InRange(seqToUnseq, 256) && nblockMAX <= tt.Length
      ensures Valid() && out == [] && yy == Iota(|seqToUnseq|)
      ensures this.tt == tt && this.seqToUnseq == seqToUnseq && this.nblockMAX == nblockMAX
      ensures fresh(unzftab) && fresh(rows) && fresh(rows.mtfa) && fresh(rows.mtfbase)
    {
      this.tt, this.seqToUnseq, this.nblockMAX := tt, seqToUnseq, nblockMAX;
      var u := new int[256](_ => 0);
      unzftab := u;
      var r := new MtfRows();
      rows := r;
      nblock, out, yy := 0, [], r.List()[..|seqToUnseq|];
      new;
      assert yy == Iota(|seqToUnseq|) && tt[..0] == [];
    }

    lemma Filled()
      requires Valid()
      ensures nblock <= tt.Length && tt[..nblock] == out && Counted(unzftab[..], out)
    {
      assert UnfoldColumn(0);
    }

    /** Appends es copies of the front byte, if there is room. */
    method PutRun(es0: nat) returns (ok: bool)
      requires Valid()
      modifies this, tt, unzftab
      ensures |out| == nblock <= nblockMAX && yy == old(yy)
      ensures ok <==> |old(out)| + es0 <= nblockMAX
      ensures 0 < |yy| == |seqToUnseq| && 0 <= yy[0] < |yy|
      ensures ok ==> Valid() && out == old(out) + Copies(seqToUnseq[yy[0]], es0)
    {
      assert UnfoldColumn(0);
      var uc := seqToUnseq[rows.Front()];
      CountedMore(unzftab[..], out, uc, es0);
      ghost var unz := unzftab[..];
      unzftab[uc] := unzftab[uc] + es0;
      assert unzftab[..] == unz[uc := unz[uc] + es0];
      ok := Fill(uc, es0);
      out := tt[..nblock];
    }

    /** Writes es copies of uc, or as many as there is room for. */
    method Fill(uc: int, es0: nat) returns (ok: bool)
      requires nblock <= nblockMAX <= tt.Length
      modifies this`nblock, tt
      ensures nblock <= nblockMAX && (ok <==> old(nblock) + es0 <= nblockMAX)
      ensures ok ==> tt[..nblock] == old(tt[..nblock]) + Copies(uc, es0)
    {
      var es := es0;
      ghost var was := tt[..nblock];
      while es > 0
        invariant 0 <= es <= es0 && nblock + es == |was| + es0 && nblock <= nblockMAX
        invariant tt[..nblock] == was + Copies(uc, es0 - es)
      {
        if nblock >= nblockMAX {
          return false;
        }
        tt[nblock] := uc;
        nblock := nblock + 1;
        es := es - 1;
        assert tt[..nblock] == tt[..nblock - 1] + [uc];
      }
      ok := true;
    }

    /** Appends the byte at place nn of the list and moves it to the front, if there is room. */
    method PutPlace(nn: nat) returns (ok: bool)
      requires Valid() && nn < |yy|
      modifies this, tt, unzftab, rows.mtfa, rows.mtfbase
      ensures Valid() && (ok <==> |old(out)| < nblockMAX)
      ensures 0 <= old(yy)[nn] < |yy| == |seqToUnseq|
      ensures ok ==> out == old(out) + [seqToUnseq[old(yy)[nn]]] && yy == ToFront(old(yy), nn)
      ensures !ok ==> out == old(out) && yy == old(yy)
    {
      assert UnfoldColumn(0);
      if nblock >= nblockMAX {
        return false;
      }
      ghost var list := rows.List();
      var uc := rows.Take(nn);
      ToFrontPrefix(list, |seqToUnseq|, nn);
      ToFrontPermutation(yy, nn);
      var ch := seqToUnseq[uc];
      ghost var unz := unzftab[..];
      CountedMore(unz, out, ch, 1);
      assert Copies(ch, 1) == [ch];
      unzftab[ch] := unzftab[ch] + 1;
      assert unzftab[..] == unz[ch := unz[ch] + 1];
      tt[nblock] := ch;
      nblock := nblock + 1;
      assert tt[..nblock] == out + [ch];
      out := out + [ch];
      yy := ToFront(yy, nn);
      ok := true;
    }
  }
}
