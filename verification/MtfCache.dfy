/** The decoder's move-to-front list, kept as sixteen rows of sixteen that slide down through a
    buffer of 4096 (decompress.c). It refines a plain list of 256 entries. */
module MtfCache {
  import opened Sequences
  import opened MoveToFront

  const MTFA_SIZE := 4096
  const MTFL_SIZE := 16

  /** Entry c of the row that starts at base[r]. */
  ghost function Cell(a: seq<int>, base: seq<int>, r: int, c: int): int
    requires 0 <= r < |base| && 0 <= base[r] + c < |a|
  {
    a[base[r] + c]
  }

  /** Sixteen rows of sixteen, in order and without overlap. */
  ghost predicate Layout(base: seq<int>) {
    && |base| == 16
    && (forall r :: 0 <= r < 16 ==> 0 <= base[r] <= MTFA_SIZE - MTFL_SIZE)
    && (forall r, s :: 0 <= r < s < 16 ==> base[r] + 16 * (s - r) <= base[s])
  }

  /** The list the rows stand for. */
  ghost function View(a: seq<int>, base: seq<int>): (v: seq<int>)
    requires |a| == MTFA_SIZE && Layout(base)
    ensures |v| == 256 && forall k :: 0 <= k < 256 ==> v[k] == Cell(a, base, k / 16, k % 16)
  {
    seq(256, k requires 0 <= k < 256 => Cell(a, base, k / 16, k % 16))
  }

  /** Holds w in the rows, except perhaps the first entries of rows 0..m. */
  ghost predicate Filled(a: seq<int>, nb: seq<int>, w: seq<int>, m: int) {
    && |a| == MTFA_SIZE && Layout(nb) && |w| == 256
    && forall r, c :: 0 <= r < 16 && 0 <= c < 16 && (c > 0 || r > m) ==> Cell(a, nb, r, c) == w[16 * r + c]
  }

  lemma FilledIsView(a: seq<int>, nb: seq<int>, w: seq<int>)
    requires Filled(a, nb, w, -1)
    ensures View(a, nb) == w
  {
    forall k | 0 <= k < 256 ensures View(a, nb)[k] == w[k] {
      assert Cell(a, nb, k / 16, k % 16) == w[16 * (k / 16) + k % 16];
    }
  }

  /** Entry 16 r + c of the list is entry c of row r. */
  lemma ViewCell(a: seq<int>, base: seq<int>, r: int, c: int)
    requires |a| == MTFA_SIZE && Layout(base) && 0 <= r < 16 && 0 <= c < 16
    ensures View(a, base)[16 * r + c] == a[base[r] + c]
  {
    var k := 16 * r + c;
    assert k / 16 == r && k % 16 == c;
  }

  lemma ViewFilled(a: seq<int>, base: seq<int>)
    requires |a| == MTFA_SIZE && Layout(base)
    ensures Filled(a, base, View(a, base), -1)
  {
    forall r, c | 0 <= r < 16 && 0 <= c < 16 ensures Cell(a, base, r, c) == View(a, base)[16 * r + c] {
      ViewCell(a, base, r, c);
    }
  }

  /** Writing the first entry of row m, from the entry that left row m - 1. */
  lemma FillOne(a: seq<int>, nb: seq<int>, w: seq<int>, m: int)
    requires 0 <= m < 16 && Filled(a, nb, w, m)
    ensures Filled(a[nb[m] := w[16 * m]], nb, w, m - 1)
  {
    var a' := a[nb[m] := w[16 * m]];
    forall r, c | 0 <= r < 16 && 0 <= c < 16 && (c > 0 || r > m - 1)
      ensures Cell(a', nb, r, c) == w[16 * r + c]
    {
      if r != m || c != 0 {
        assert Cell(a, nb, r, c) == w[16 * r + c];
        assert nb[r] + c != nb[m];
      }
    }
  }

  /** The entries p..p+n-1 moved up by one, as far as the top n - k of them. */
  ghost predicate MovedUp(a: seq<int>, a': seq<int>, p: int, n: int, k: int) {
    && |a'| == |a| && 0 <= p && 0 <= k <= n && p + n < |a|
    && (forall q :: p + k < q <= p + n ==> a'[q] == a[q - 1])
    && (forall q :: 0 <= q < |a| && (q <= p + k || p + n < q) ==> a'[q] == a[q])
  }

  /** Entry nn < 16 of the list, moved to the front inside row 0. */
  lemma FrontRow(a: seq<int>, a': seq<int>, base: seq<int>, nn: int)
    requires |a| == MTFA_SIZE && Layout(base) && 0 <= nn < 16 && MovedUp(a, a', base[0], nn, 0)
    ensures View(a'[base[0] := a[base[0] + nn]], base) == ToFront(View(a, base), nn)
  {
    var v := View(a, base);
    var w, a2 := ToFront(v, nn), a'[base[0] := a[base[0] + nn]];
    forall r, c | 0 <= r < 16 && 0 <= c < 16 ensures Cell(a2, base, r, c) == w[16 * r + c] {
      ViewCell(a, base, r, c);
      if r == 0 {
        ViewCell(a, base, 0, nn);
        if c > 0 { ViewCell(a, base, 0, c - 1); }
      } else {
        assert base[0] + 16 <= base[r];
      }
    }
    FilledIsView(a2, base, w);
  }

  /** Where the rows end up when row lno gives up an entry: those below slide down by one. */
  ghost function Slid(base: seq<int>, lno: int): (nb: seq<int>)
    requires |base| == 16
    ensures |nb| == 16 && forall r :: 0 <= r < 16 ==> nb[r] == if r < lno then base[r] - 1 else base[r]
  {
    seq(16, r requires 0 <= r < 16 => if r < lno then base[r] - 1 else base[r])
  }

  lemma SlidLayout(base: seq<int>, lno: int)
    requires Layout(base) && base[0] >= 1 && 0 < lno < 16
    ensures Layout(Slid(base, lno))
  {
    assert forall r :: 0 < r < 16 ==> base[0] + 16 * r <= base[r];
  }

  /** The entry that stands at (r, c) once entry off of row lno has moved to the front. */
  function From(lno: int, off: int, r: int, c: int): int {
    if r < lno || (r == lno && c <= off) then c - 1 else c
  }

  lemma CarryMemory(a: seq<int>, a': seq<int>, base: seq<int>, lno: int, off: int, r: int, c: int)
    requires |a| == MTFA_SIZE && Layout(base) && base[0] >= 1 && 0 < lno < 16 && 0 <= off < 16
    requires MovedUp(a, a', base[lno], off, 0) && 0 <= r < 16 && 0 <= c < 16 && (c > 0 || r > lno)
    ensures var q := Slid(base, lno)[r] + c;
            0 <= q < |a'| && a'[q] == a[base[r] + From(lno, off, r, c)]
  {
    RowsApart(base, 0, r);
    RowsApart(base, r, lno);
    RowsApart(base, lno, r);
  }

  lemma CarryList(v: seq<int>, lno: int, off: int, r: int, c: int)
    requires |v| == 256 && 0 < lno < 16 && 0 <= off < 16 && 0 <= r < 16 && 0 <= c < 16 && (c > 0 || r > lno)
    ensures ToFront(v, 16 * lno + off)[16 * r + c] == v[16 * r + From(lno, off, r, c)]
  {
    ToFrontAt(v, 16 * lno + off, 16 * r + c);
  }

  /** One entry after row lno has closed the gap left by entry off. */
  lemma CarryCell(a: seq<int>, a': seq<int>, base: seq<int>, v: seq<int>, lno: int, off: int, r: int, c: int)
    requires Filled(a, base, v, -1) && base[0] >= 1 && 0 < lno < 16 && 0 <= off < 16
    requires MovedUp(a, a', base[lno], off, 0) && 0 <= r < 16 && 0 <= c < 16 && (c > 0 || r > lno)
    ensures var nb := Slid(base, lno);
            && 0 <= nb[r] + c < |a'|
            && a'[nb[r] + c] == ToFront(v, 16 * lno + off)[16 * r + c]
  {
    CarryMemory(a, a', base, lno, off, r, c);
    CarryList(v, lno, off, r, c);
    assert Cell(a, base, r, From(lno, off, r, c)) == v[16 * r + From(lno, off, r, c)];
  }

  lemma RowsApart(base: seq<int>, r: int, s: int)
    requires Layout(base) && 0 <= r < 16 && 0 <= s < 16
    ensures r < s ==> base[r] + 16 <= base[s]
  {
    if r < s { assert base[r] + 16 * (s - r) <= base[s]; }
  }

  /** Then only the first entries of rows 0..lno are missing. */
  lemma CarryStart(a: seq<int>, a': seq<int>, base: seq<int>, v: seq<int>, lno: int, off: int)
    requires Filled(a, base, v, -1) && base[0] >= 1 && 0 < lno < 16 && 0 <= off < 16
    requires MovedUp(a, a', base[lno], off, 0)
    ensures Filled(a', Slid(base, lno), ToFront(v, 16 * lno + off), lno)
  {
    SlidLayout(base, lno);
    var nb, w := Slid(base, lno), ToFront(v, 16 * lno + off);
    forall r, c | 0 <= r < 16 && 0 <= c < 16 && (c > 0 || r > lno)
      ensures Cell(a', nb, r, c) == w[16 * r + c]
    {
      CarryCell(a, a', base, v, lno, off, r, c);
    }
  }

  /** The entry that leaves the end of row m - 1 enters row m. */
  lemma CarryValue(a: seq<int>, base: seq<int>, v: seq<int>, lno: int, off: int, m: int)
    requires Filled(a, base, v, -1) && 0 < m <= lno < 16 && 0 <= off < 16
    ensures a[base[m - 1] + 15] == ToFront(v, 16 * lno + off)[16 * m]
  {
    assert Cell(a, base, m - 1, 15) == v[16 * (m - 1) + 15];
    ToFrontAt(v, 16 * lno + off, 16 * m);
  }

  /** The carry loop at row m: rows above it are done, and the last entries of the rows below
      it are still those of the list a, base. */
  ghost predicate Carrying(a: seq<int>, base: seq<int>, v: seq<int>, far: int, off: int, a': seq<int>, base': seq<int>, m: int) {
    && Filled(a, base, v, -1) && base[0] >= 1 && 0 <= m <= far && 0 < far < 16 && 0 <= off < 16
    && |base'| == 16
    && Filled(a', Slid(base, far), ToFront(v, 16 * far + off), m)
    && (forall r :: 0 <= r < 16 && r != m ==> base'[r] == (if r < m then base[r] else Slid(base, far)[r]))
    && base'[m] == Slid(base, far)[m] + 1
    && (forall r :: 0 <= r < m ==> a'[base[r] + 15] == a[base[r] + 15])
  }

  lemma CarryingStart(a: seq<int>, a': seq<int>, base: seq<int>, v: seq<int>, lno: int, off: int)
    requires Filled(a, base, v, -1) && base[0] >= 1 && 0 < lno < 16 && 0 <= off < 16
    requires MovedUp(a, a', base[lno], off, 0)
    ensures Carrying(a, base, v, lno, off, a', base[lno := base[lno] + 1], lno)
  {
    CarryStart(a, a', base, v, lno, off);
    forall r | 0 <= r < lno ensures a'[base[r] + 15] == a[base[r] + 15] {
      assert base[r] + 16 <= base[lno];
    }
  }

  lemma CarryingStep(a: seq<int>, base: seq<int>, v: seq<int>, far: int, off: int, a': seq<int>, base': seq<int>, m: int)
    requires Carrying(a, base, v, far, off, a', base', m) && m > 0
    ensures 0 <= base'[m - 1] + 15 < |a'| && 0 <= base'[m] - 1 < |a'|
    ensures Carrying(a, base, v, far, off, a'[base'[m] - 1 := a'[base'[m - 1] + 15]], base'[m := base'[m] - 1], m - 1)
  {
    var nb := Slid(base, far);
    CarryValue(a, base, v, far, off, m);
    FillOne(a', nb, ToFront(v, 16 * far + off), m);
    forall r | 0 <= r < m - 1 ensures base[r] + 15 != nb[m] {
      assert base[r] + 16 * (m - r) <= base[m];
    }
  }

  class MtfRows {
    const mtfa: array<int>
    const mtfbase: array<int>

    ghost predicate Valid()
      reads mtfa, mtfbase
    {
      && mtfa != mtfbase && mtfa.Length == MTFA_SIZE && mtfbase.Length == 16
      && Layout(mtfbase[..]) && mtfbase[0] >= 1
    }

    ghost function List(): (v: seq<int>)
      requires Valid()
      reads mtfa, mtfbase
      ensures |v| == 256
    {
      View(mtfa[..], mtfbase[..])
    }

    /** MTF init: the bytes in order, in the top rows of the buffer. */
    constructor ()
      ensures Valid() && List() == Iota(256) && fresh(mtfa) && fresh(mtfbase)
    {
      mtfa := new int[MTFA_SIZE](i => if i < 3840 then 0 else i - 3840);
      mtfbase := new int[16](i => 3840 + 16 * i);
      new;
      assert forall r, c :: 0 <= r < 16 && 0 <= c < 16 ==> Cell(mtfa[..], mtfbase[..], r, c) == 16 * r + c;
      FilledIsView(mtfa[..], mtfbase[..], Iota(256));
    }

    /** Moves mtfa[p..p+n] up by one: four at a time while there are four, then one by one. */
    method MoveUpFast(p: int, n: nat)
      requires mtfa != mtfbase && mtfa.Length == MTFA_SIZE && 0 <= p && p + n < MTFA_SIZE
      modifies mtfa
      ensures MovedUp(old(mtfa[..]), mtfa[..], p, n, 0)
    {
      ghost var a := mtfa[..];
      var k := n;
      while k > 3
        invariant 0 <= k <= n && MovedUp(a, mtfa[..], p, n, k)
      {
        var z := p + k;
        mtfa[z] := mtfa[z - 1];
        mtfa[z - 1] := mtfa[z - 2];
        mtfa[z - 2] := mtfa[z - 3];
        mtfa[z - 3] := mtfa[z - 4];
        k := k - 4;
      }
      while k > 0
        invariant 0 <= k <= n && MovedUp(a, mtfa[..], p, n, k)
      {
        mtfa[p + k] := mtfa[p + k - 1];
        k := k - 1;
      }
    }

    method MoveUp(p: int, n: nat)
      requires mtfa != mtfbase && mtfa.Length == MTFA_SIZE && 0 <= p && p + n < MTFA_SIZE
      modifies mtfa
      ensures MovedUp(old(mtfa[..]), mtfa[..], p, n, 0)
    {
      ghost var a := mtfa[..];
      var pp := p + n;
      while pp > p
        invariant p <= pp <= p + n && MovedUp(a, mtfa[..], p, n, pp - p)
      {
        mtfa[pp] := mtfa[pp - 1];
        pp := pp - 1;
      }
    }

    /** The front entry. */
    function Front(): (uc: int)
      requires Valid()
      reads mtfa, mtfbase
      ensures uc == List()[0]
    {
      ViewCell(mtfa[..], mtfbase[..], 0, 0);
      mtfa[mtfbase[0]]
    }

    /** Takes entry nn of the list and moves it to the front. */
    method Take(nn: nat) returns (uc: int)
      requires Valid() && nn < 256
      modifies mtfa, mtfbase
      ensures Valid() && uc == old(List())[nn] && List() == ToFront(old(List()), nn)
    {
      ghost var a, base := mtfa[..], mtfbase[..];
      if nn < MTFL_SIZE {
        var pp := mtfbase[0];
        uc := mtfa[pp + nn];
        ViewCell(a, base, 0, nn);
        MoveUpFast(pp, nn);
        FrontRow(a, mtfa[..], base, nn);
        ghost var a' := mtfa[..];
        mtfa[pp] := uc;
        assert mtfa[..] == a'[pp := uc];
      } else {
        uc := TakeFar(nn);
        if mtfbase[0] == 0 { Rebuild(); }
      }
    }

    /** The general case: the entry leaves its row, and every row below passes its last entry on
        to the next. */
    method TakeFar(nn: nat) returns (uc: int)
      requires Valid() && MTFL_SIZE <= nn < 256
      modifies mtfa, mtfbase
      ensures mtfa != mtfbase && mtfa.Length == MTFA_SIZE && mtfbase.Length == 16 && Layout(mtfbase[..])
      ensures uc == old(List())[nn] && View(mtfa[..], mtfbase[..]) == ToFront(old(List()), nn)
    {
      ghost var a, base := mtfa[..], mtfbase[..];
      var lno, off := nn / MTFL_SIZE, nn % MTFL_SIZE;
      ghost var far := lno;
      uc := mtfa[mtfbase[lno] + off];
      ghost var v := View(a, base);
      ViewFilled(a, base);
      assert uc == v[nn] by { assert Cell(a, base, lno, off) == v[16 * lno + off]; }
      MoveUp(mtfbase[lno], off);
      CarryingStart(a, mtfa[..], base, v, lno, off);
      Raise(lno);
      CarryLoop(lno, a, base, v, off);
      PushFront(uc, a, base, v, far, off);
    }

    method Raise(lno: nat)
      requires mtfa != mtfbase && lno < mtfbase.Length
      modifies mtfbase
      ensures mtfbase[..] == old(mtfbase[..])[lno := old(mtfbase[lno]) + 1]
    {
      mtfbase[lno] := mtfbase[lno] + 1;
    }

    method CarryLoop(lno0: int, ghost a: seq<int>, ghost base: seq<int>, ghost v: seq<int>, ghost off: int)
      requires mtfa != mtfbase && mtfa.Length == MTFA_SIZE && mtfbase.Length == 16
      requires Carrying(a, base, v, lno0, off, mtfa[..], mtfbase[..], lno0)
      modifies mtfa, mtfbase
      ensures Carrying(a, base, v, lno0, off, mtfa[..], mtfbase[..], 0)
    {
      var lno := lno0;
      ghost var far := lno0;
      while lno > 0
        invariant 0 <= lno <= far && Carrying(a, base, v, far, off, mtfa[..], mtfbase[..], lno)
      {
        ghost var a', base' := mtfa[..], mtfbase[..];
        CarryingStep(a, base, v, far, off, a', base', lno);
        mtfbase[lno] := mtfbase[lno] - 1;
        mtfa[mtfbase[lno]] := mtfa[mtfbase[lno - 1] + MTFL_SIZE - 1];
        assert mtfbase[..] == base'[lno := base'[lno] - 1];
        assert mtfa[..] == a'[base'[lno] - 1 := a'[base'[lno - 1] + 15]];
        lno := lno - 1;
      }
    }

    method PushFront(uc: int, ghost a: seq<int>, ghost base: seq<int>, ghost v: seq<int>, ghost far: int, ghost off: int)
      requires mtfa != mtfbase && mtfa.Length == MTFA_SIZE && mtfbase.Length == 16
      requires Carrying(a, base, v, far, off, mtfa[..], mtfbase[..], 0) && uc == v[16 * far + off]
      modifies mtfa, mtfbase
      ensures Layout(mtfbase[..]) && View(mtfa[..], mtfbase[..]) == ToFront(v, 16 * far + off)
    {
      ghost var nb, w, now := Slid(base, far), ToFront(v, 16 * far + off), mtfa[..];
      FillOne(now, nb, w, 0);
      mtfbase[0] := mtfbase[0] - 1;
      mtfa[mtfbase[0]] := uc;
      assert mtfa[..] == now[nb[0] := w[0]];
      assert mtfbase[..] == nb;
      FilledIsView(mtfa[..], nb, w);
    }

    /** Copies row ii to the 16 places ending at kk, last entry first; the source may overlap
        them from below. */
    method CopyRow(ii: nat, kk0: int, ghost v: seq<int>) returns (kk: int)
      requires mtfa != mtfbase && mtfa.Length == MTFA_SIZE && mtfbase.Length == 16 && ii < 16
      requires Rebuilding(mtfa[..], mtfbase[..], v, ii) && kk0 == 3840 + 16 * ii + 15
      modifies mtfa, mtfbase
      ensures kk == kk0 - 16 && Rebuilding(mtfa[..], mtfbase[..], v, ii - 1)
    {
      ghost var a, base := mtfa[..], mtfbase[..];
      TopRow(base, ii);
      CopyDown(mtfbase[ii], kk0);
      kk := kk0 - 16;
      mtfbase[ii] := kk + 1;
      RebuiltRow(a, base, mtfa[..], v, ii);
      assert mtfbase[..] == base[ii := 3840 + 16 * ii];
    }

    method CopyDown(b: int, kk0: int)
      requires mtfa.Length == MTFA_SIZE && 0 <= b <= kk0 - 15 && kk0 < MTFA_SIZE
      modifies mtfa
      ensures forall k :: 0 <= k <= kk0 - 16 || kk0 < k < MTFA_SIZE ==> mtfa[k] == old(mtfa[k])
      ensures forall k :: kk0 - 16 < k <= kk0 ==> mtfa[k] == old(mtfa[..])[b + (k - (kk0 - 15))]
    {
      ghost var a := mtfa[..];
      var kk, jj := kk0, 15;
      while jj >= 0
        invariant -1 <= jj <= 15 && kk == kk0 - 15 + jj
        invariant forall k :: 0 <= k <= kk || kk0 < k < MTFA_SIZE ==> mtfa[k] == a[k]
        invariant forall k :: kk < k <= kk0 ==> mtfa[k] == a[b + (k - (kk0 - 15))]
      {
        mtfa[kk] := mtfa[b + jj];
        kk := kk - 1;
        jj := jj - 1;
      }
    }

    /** Moves the rows back to the top of the buffer. */
    method Rebuild()
      requires mtfa != mtfbase && mtfa.Length == MTFA_SIZE && mtfbase.Length == 16 && Layout(mtfbase[..])
      modifies mtfa, mtfbase
      ensures Valid() && List() == old(View(mtfa[..], mtfbase[..]))
    {
      ghost var v := View(mtfa[..], mtfbase[..]);
      ViewFilled(mtfa[..], mtfbase[..]);
      var kk := MTFA_SIZE - 1;
      var ii := 15;
      while ii >= 0
        invariant -1 <= ii <= 15 && kk == 3840 + 16 * (ii + 1) - 1
        invariant Rebuilding(mtfa[..], mtfbase[..], v, ii)
      {
        kk := CopyRow(ii, kk, v);
        ii := ii - 1;
      }
      FilledIsView(mtfa[..], mtfbase[..], v);
    }
  }

  /** The rebuild at row m: rows above it are at the top of the buffer, and every row still
      holds its part of the list. */
  ghost predicate Rebuilding(a: seq<int>, base: seq<int>, v: seq<int>, m: int) {
    && -1 <= m < 16 && Filled(a, base, v, -1)
    && forall r :: m < r < 16 ==> base[r] == 3840 + 16 * r
  }

  lemma RebuiltRow(a: seq<int>, base: seq<int>, a': seq<int>, v: seq<int>, ii: int)
    requires 0 <= ii < 16 && Rebuilding(a, base, v, ii) && |a'| == MTFA_SIZE
    requires forall k :: 0 <= k < MTFA_SIZE && !(3840 + 16 * ii <= k < 3840 + 16 * ii + 16) ==> a'[k] == a[k]
    requires forall k :: 3840 + 16 * ii <= k < 3840 + 16 * ii + 16 ==> a'[k] == a[base[ii] + (k - (3840 + 16 * ii))]
    ensures Rebuilding(a', base[ii := 3840 + 16 * ii], v, ii - 1)
  {
    var base' := base[ii := 3840 + 16 * ii];
    forall r | 0 <= r < ii ensures base[r] + 16 * (ii - r) <= 3840 + 16 * ii { TopRow(base, ii); }
    forall r, c | 0 <= r < 16 && 0 <= c < 16 ensures Cell(a', base', r, c) == v[16 * r + c] {
      assert Cell(a, base, r, c) == v[16 * r + c];
      if r < ii { assert base[r] + 16 <= base[ii] <= 3840 + 16 * ii by { TopRow(base, ii); } }
    }
  }

  lemma TopRow(base: seq<int>, r: int)
    requires Layout(base) && 0 <= r < 16
    ensures base[r] <= 3840 + 16 * r
  {
    if r < 15 { assert base[r] + 16 * (15 - r) <= base[15]; }
  }
}
