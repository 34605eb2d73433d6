/** The two-level tables of inflate_table (inftrees.c): what a lookup gives, and how the entries for
    one word, or the link to a new sub-table, are written. */
module TableFill {
  import opened Bits
  import opened CodeWords
  import opened WordOrder

  /** One table entry (code in inftrees.h). */
  datatype Entry = Entry(op: nat, bits: nat, val: nat)

  predicate IsLink(e: Entry) { 0 < e.op < 16 }

  /** A lookup on b, in one step or two, gives e, with all the bits used. */
  ghost predicate Gives(tab: seq<Entry>, root: nat, b: seq<bool>, e: Entry) {
    && root <= |b| && Number(b[..root]) < |tab|
    && var x := tab[Number(b[..root])];
       if IsLink(x) then
         && x.bits + x.op <= |b| && x.val + Number(b[x.bits..x.bits + x.op]) < |tab|
         && var y := tab[x.val + Number(b[x.bits..x.bits + x.op])];
            e == Entry(y.op, x.bits + y.bits, y.val)
       else e == x
  }

  /** The tables while they are filled: the one being filled starts at next, has curr index bits,
      and hangs from entry low of the root table (-1 while that is the root table itself). */
  datatype View = View(tab: seq<Entry>, next: nat, curr: nat, low: int)

  /** The place of string b holds e, and later writes will not touch it. */
  ghost predicate Placed(v: View, root: nat, b: seq<bool>, e: Entry) {
    && root <= |b| && Number(b[..root]) < |v.tab|
    && var x := v.tab[Number(b[..root])];
       if e.bits <= root then x == e else InSub(v, root, b, e, x)
  }

  ghost predicate InSub(v: View, root: nat, b: seq<bool>, e: Entry, x: Entry)
    requires root <= |b| && root <= e.bits
  {
    && x.bits == root && IsLink(x) && root + x.op <= |b| && Pow2(root) <= x.val && x.val + Pow2(x.op) <= |v.tab|
    && (Number(b[..root]) == v.low || x.val + Pow2(x.op) <= v.next)
    && Index(b, root, x.op) < Pow2(x.op) && v.tab[x.val + Index(b, root, x.op)] == Entry(e.op, e.bits - root, e.val)
  }

  /** The index that bits r.. of b have in a table of c bits. */
  ghost function Index(b: seq<bool>, r: nat, c: nat): nat
    requires r + c <= |b|
  {
    Number(b[r..r + c])
  }

  /** The strings of the first k words all find their entries. */
  ghost predicate Right(v: View, root: nat, it: seq<Entry>, ls: seq<int>, m: nat, k: nat) {
    |it| == |ls| && forall j: nat, b :: j < k && In(ls, m, j, b) ==> Placed(v, root, b, it[j])
  }

  ghost predicate Ordered(ls: seq<int>, m: nat) { Rising(ls, m) && Taken(ls, m, |ls|) <= Pow2(m) }

  /** No word of the k-th word's cell, from it on, is too long for a table of curr bits. */
  ghost predicate Roomy(ls: seq<int>, root: nat, curr: nat, k: nat)
    requires k < |ls| && root <= ls[k]
  {
    forall j: nat :: k <= j < |ls| && root <= ls[j] && Cell(ls, root, j) == Cell(ls, root, k) ==> ls[j] <= root + curr
  }

  /** The table for the k-th word is there. */
  ghost predicate Ready(v: View, root: nat, ls: seq<int>, m: nat, k: nat)
    requires k < |ls| && ls[k] >= 0
  {
    && 1 <= root <= m && Pow2(root) <= |v.tab|
    && if ls[k] <= root then v.next == 0 && v.curr == root && v.low == -1
       else
         && Hangs(v, root, Number(WordAt(ls, k)[..root]), m)
         && Roomy(ls, root, v.curr, k)
  }

  /** The table being filled is a sub-table that hangs from entry i of the root table. */
  ghost predicate Hangs(v: View, root: nat, i: nat, m: nat) {
    && v.low == i < Pow2(root) <= v.next && v.next + Pow2(v.curr) <= |v.tab| && v.tab[i] == Entry(v.curr, root, v.next)
    && 1 <= v.curr < 16 && root + v.curr <= m
  }

  /** A word is not too long for its own table. */
  lemma ReadyFits(v: View, root: nat, ls: seq<int>, m: nat, k: nat)
    requires Ordered(ls, m) && k < |ls| && ls[k] > root && Ready(v, root, ls, m, k)
    ensures ls[k] <= root + v.curr
  {
    assert Cell(ls, root, k) == Cell(ls, root, k);
  }

  // ---- Replicating an entry ----

  /** Index i ends in the bits of r. */
  ghost predicate Hits(i: nat, step: nat, r: nat) { step > 0 && i % step == r }

  ghost predicate Replicated(t: seq<Entry>, t': seq<Entry>, next: nat, size: nat, step: nat, r: nat, here: Entry) {
    |t'| == |t| && forall i :: 0 <= i < |t| ==> t'[i] == if next <= i < next + size && Hits(i - next, step, r) then here else t[i]
  }

  /** Between two multiples of step there is one hit. */
  lemma HitOnce(i: nat, q: nat, step: nat, r: nat)
    requires r < step && q * step <= i < (q + 1) * step
    ensures Hits(i, step, r) <==> i == q * step + r
  {
    TimesSum(q, 1, step);
    SplitBits(q, i - q * step, step);
  }

  /** Writes here at every index below size that ends in the bits of start. */
  method Replicate(table: array<Entry>, next: nat, start: nat, incr: nat, size: nat, here: Entry, ghost n: nat)
    requires next + size <= table.Length && start < incr && size == n * incr && n >= 1
    modifies table
    ensures Replicated(old(table[..]), table[..], next, size, incr, start, here)
  {
    var fill := size;
    ghost var q := n;
    ghost var t := table[..];
    while fill != 0
      invariant fill == q * incr && q <= n && 0 <= fill <= size
      invariant |table[..]| == |t|
      invariant forall i :: 0 <= i < |t| ==> table[i] == if next + fill <= i < next + size && Hits(i - next, incr, start) then here else t[i]
      decreases fill
    {
      assert q > 0;
      q := q - 1;
      TimesSum(q, 1, incr);
      fill := fill - incr;
      forall i: nat | q * incr <= i < (q + 1) * incr ensures Hits(i, incr, start) <==> i == fill + start {
        HitOnce(i, q, incr, start);
      }
      table[next + (start + fill)] := here;
    }
  }

  /** Hits are the strings with the word's bits. */
  lemma HitsIs(u: seq<bool>, w: seq<bool>)
    requires |w| <= |u|
    ensures Hits(Number(u), Pow2(|w|), Number(w)) <==> w <= u
  {
    NumberDiv(u, |w|, Number(u), Pow2(|w|));
    if Number(w) == Number(u[..|w|]) { SameNumber(w, u[..|w|]); }
  }

  // ---- The entries of one word ----

  /** What is written for the k-th word. */
  ghost function Here(root: nat, it: seq<Entry>, ls: seq<int>, k: nat): Entry
    requires k < |it| == |ls| && ls[k] >= 0
  {
    if ls[k] <= root then it[k] else Entry(it[k].op, ls[k] - root, it[k].val)
  }

  /** The table v' is v with the entries of the k-th word written. */
  ghost predicate Entered(v: View, v': View, root: nat, it: seq<Entry>, ls: seq<int>, k: nat)
    requires k < |it| == |ls| && ls[k] >= 0
  {
    var d := if ls[k] <= root then 0 else root;
    v' == v.(tab := v'.tab)
    && Replicated(v.tab, v'.tab, v.next, Pow2(v.curr), Pow2(ls[k] - d), Number(WordAt(ls, k)[d..]), Here(root, it, ls, k))
  }

  lemma Below(b: seq<bool>, r: nat)
    requires r <= |b|
    ensures Number(b[..r]) < Pow2(r)
  {
    BitsOfNumber(b[..r]);
  }

  /** In the root table, the strings that begin with the word are the ones whose entry is written. */
  lemma RootHits(root: nat, ls: seq<int>, m: nat, k: nat, b: seq<bool>)
    requires Ordered(ls, m) && k < |ls| && ls[k] <= root <= m == |b|
    ensures Hits(Number(b[..root]), Pow2(ls[k]), Number(WordAt(ls, k))) <==> In(ls, m, k, b)
  {
    InIsPrefix(ls, m, k, b);
    HitsIs(b[..root], WordAt(ls, k));
    assert WordAt(ls, k) <= b[..root] <==> WordAt(ls, k) <= b;
  }

  lemma EnterRoot(v: View, v': View, root: nat, it: seq<Entry>, ls: seq<int>, m: nat, k: nat, j: nat, b: seq<bool>)
    requires Ordered(ls, m) && j <= k < |it| == |ls| && it[k].bits == ls[k] <= root && it[j].bits <= root && Ready(v, root, ls, m, k)
    requires Entered(v, v', root, it, ls, k) && In(ls, m, j, b)
    requires j < k ==> Placed(v, root, b, it[j])
    ensures Placed(v', root, b, it[j])
  {
    Below(b, root);
    RootHits(root, ls, m, k, b);
    assert WordAt(ls, k)[0..] == WordAt(ls, k);
    if j < k && In(ls, m, k, b) {
      InOnce(ls, m, j, k, b);
    }
  }

  lemma SplitPrefix(w: seq<bool>, b: seq<bool>, r: nat, c: nat)
    requires r <= |w| <= r + c <= |b|
    ensures w <= b <==> w[..r] == b[..r] && w[r..] <= b[r..r + c]
  {
    if w[..r] == b[..r] && w[r..] <= b[r..r + c] {
      assert w == w[..r] + w[r..] && b[..|w|] == b[..r] + b[r..r + c][..|w| - r];
    }
    if w <= b {
      assert b[r..r + c][..|w| - r] == w[r..];
    }
  }

  /** In the sub-table of its cell, likewise. */
  lemma SubHits(root: nat, curr: nat, ls: seq<int>, m: nat, k: nat, b: seq<bool>)
    requires Ordered(ls, m) && k < |ls| && root <= ls[k] <= root + curr <= m == |b|
    ensures In(ls, m, k, b) <==>
              Number(b[..root]) == Number(WordAt(ls, k)[..root]) && Hits(Index(b, root, curr), Pow2(ls[k] - root), Number(WordAt(ls, k)[root..]))
  {
    var w := WordAt(ls, k);
    InIsPrefix(ls, m, k, b);
    SplitPrefix(w, b, root, curr);
    HitsIs(b[root..root + curr], w[root..]);
    if Number(b[..root]) == Number(w[..root]) { SameNumber(b[..root], w[..root]); }
  }

  /** An entry that was in place stays, when the k-th word is entered in a sub-table. */
  lemma EnterSubOld(v: View, v': View, root: nat, it: seq<Entry>, ls: seq<int>, m: nat, k: nat, j: nat, b: seq<bool>)
    requires Ordered(ls, m) && j < k < |it| == |ls| && root < ls[k] <= root + v.curr && it[j].bits == ls[j]
    requires Hangs(v, root, Number(WordAt(ls, k)[..root]), m)
    requires Entered(v, v', root, it, ls, k) && In(ls, m, j, b) && Placed(v, root, b, it[j])
    ensures Placed(v', root, b, it[j])
  {
    Below(b, root);
    var i := Number(b[..root]);
    assert v'.tab[i] == v.tab[i];
    if ls[j] > root {
      var x := v.tab[i];
      var y := Index(b, root, x.op);
      if i == v.low {
        if In(ls, m, k, b) { InOnce(ls, m, j, k, b); }
        SubHits(root, v.curr, ls, m, k, b);
      }
      assert v'.tab[x.val + y] == v.tab[x.val + y];
    }
  }

  lemma EnterSubNew(v: View, v': View, root: nat, it: seq<Entry>, ls: seq<int>, m: nat, k: nat, b: seq<bool>)
    requires Ordered(ls, m) && k < |it| == |ls| && root < ls[k] <= root + v.curr && it[k].bits == ls[k]
    requires Hangs(v, root, Number(WordAt(ls, k)[..root]), m)
    requires Entered(v, v', root, it, ls, k) && In(ls, m, k, b)
    ensures Placed(v', root, b, it[k])
  {
    Below(b, root);
    SubHits(root, v.curr, ls, m, k, b);
    BitsOfNumber(b[root..root + v.curr]);
    assert v'.tab[v.low] == v.tab[v.low];
  }

  /** Entering the k-th word makes its strings right, and keeps the others right. */
  lemma EnterRight(v: View, v': View, root: nat, it: seq<Entry>, ls: seq<int>, m: nat, k: nat)
    requires Ordered(ls, m) && k < |it| == |ls| && (forall i :: 0 <= i < |ls| ==> it[i].bits == ls[i]) && Ready(v, root, ls, m, k)
    requires Right(v, root, it, ls, m, k) && Entered(v, v', root, it, ls, k)
    ensures Right(v', root, it, ls, m, k + 1)
  {
    if ls[k] > root { ReadyFits(v, root, ls, m, k); }
    forall j: nat, b | j < k + 1 && In(ls, m, j, b) ensures Placed(v', root, b, it[j]) {
      if ls[k] <= root {
        assert ls[j] <= ls[k];
        EnterRoot(v, v', root, it, ls, m, k, j, b);
      } else if j < k {
        EnterSubOld(v, v', root, it, ls, m, k, j, b);
      } else {
        EnterSubNew(v, v', root, it, ls, m, k, b);
      }
    }
  }

  lemma EnterReady(v: View, v': View, root: nat, it: seq<Entry>, ls: seq<int>, m: nat, k: nat)
    requires k < |it| == |ls| && ls[k] >= 0 && Ready(v, root, ls, m, k) && Entered(v, v', root, it, ls, k)
    ensures Ready(v', root, ls, m, k)
  {
  }

  // ---- Going on to the next word ----

  /** Different index, different cell. */
  lemma CellByIndex(ls: seq<int>, root: nat, j: nat, k: nat)
    requires j < |ls| && k < |ls| && root <= ls[j] && root <= ls[k]
    ensures Number(WordAt(ls, j)[..root]) == Number(WordAt(ls, k)[..root]) <==> Cell(ls, root, j) == Cell(ls, root, k)
  {
    var a, b := WordAt(ls, j)[..root], WordAt(ls, k)[..root];
    CellSeal(9, ls, root, j);
    CellSeal(9, ls, root, k);
    if Number(a) == Number(b) { SameNumber(a, b); }
    if Value(a) == Value(b) { SameValue(a, b); }
  }

  /** The next word goes into the table in hand, unless it is long and its cell is another. */
  lemma ReadyNext(v: View, root: nat, ls: seq<int>, m: nat, k: nat)
    requires Ordered(ls, m) && k + 1 < |ls| && Ready(v, root, ls, m, k)
    requires ls[k + 1] > root ==> Number(WordAt(ls, k + 1)[..root]) == v.low
    ensures Ready(v, root, ls, m, k + 1)
  {
    assert ls[k] <= ls[k + 1];
    if ls[k + 1] > root {
      assert Cell(ls, root, k) == Cell(ls, root, k + 1) by { CellByIndex(ls, root, k, k + 1); }
    }
  }

  lemma NextOpens(v: View, root: nat, ls: seq<int>, m: nat, k: nat)
    requires Ordered(ls, m) && k + 1 < |ls| && Ready(v, root, ls, m, k) && ls[k + 1] > root
    requires Number(WordAt(ls, k + 1)[..root]) != v.low
    ensures Taken(ls, m, k + 1) == Cell(ls, root, k + 1) * Share(m, root)
  {
    if ls[k] > root { CellByIndex(ls, root, k, k + 1); }
    CellOpens(ls, m, root, k);
  }

  // ---- Opening a sub-table ----

  /** The table being filled is the root table or hangs from it. */
  ghost predicate Based(v: View, root: nat, m: nat) {
    && Pow2(root) <= |v.tab|
    && ((v.low == -1 && v.next == 0 && v.curr == root) || (v.low >= 0 && Hangs(v, root, v.low, m)))
  }

  lemma ReadyBased(v: View, root: nat, ls: seq<int>, m: nat, k: nat)
    requires k < |ls| && ls[k] >= 0 && Ready(v, root, ls, m, k)
    ensures Based(v, root, m)
  {
  }

  /** A link is put at entry i, to a table directly after the ones so far. */
  ghost function Opened(v: View, root: nat, i: nat, curr: nat): View
    requires i < |v.tab|
  {
    var n := v.next + Pow2(v.curr);
    View(v.tab[i := Entry(curr, root, n)], n, curr, i)
  }

  /** Strings before a cell have another index. */
  lemma BeforeCell(ls: seq<int>, m: nat, root: nat, k: nat, j: nat, b: seq<bool>)
    requires Ordered(ls, m) && j < k < |ls| && root <= ls[k] && root <= m && In(ls, m, j, b)
    requires Taken(ls, m, k) == Cell(ls, root, k) * Share(m, root)
    ensures Number(b[..root]) != Number(WordAt(ls, k)[..root])
  {
    TakenMonotone(ls, m, j + 1, k);
    if Number(b[..root]) == Number(WordAt(ls, k)[..root]) {
      SameNumber(b[..root], WordAt(ls, k)[..root]);
      CellSeal(9, ls, root, k);
      Halved(b, root);
      assert false;
    }
  }

  lemma OpenPlaced(v: View, root: nat, m: nat, i: nat, curr: nat, b: seq<bool>, e: Entry)
    requires Based(v, root, m) && i < Pow2(root) && Placed(v, root, b, e) && Number(b[..root]) != i
    ensures Placed(Opened(v, root, i, curr), root, b, e)
  {
    Below(b, root);
  }

  lemma OpenRight(v: View, root: nat, it: seq<Entry>, ls: seq<int>, m: nat, k: nat, i: nat, curr: nat)
    requires Ordered(ls, m) && k < |ls| && root < ls[k] && Based(v, root, m) && Right(v, root, it, ls, m, k)
    requires i == Number(WordAt(ls, k)[..root]) < Pow2(root) && Taken(ls, m, k) == Cell(ls, root, k) * Share(m, root)
    ensures Right(Opened(v, root, i, curr), root, it, ls, m, k)
  {
    var v' := Opened(v, root, i, curr);
    forall j: nat, b | j < k && In(ls, m, j, b) ensures Placed(v', root, b, it[j]) {
      assert root <= m;
      BeforeCell(ls, m, root, k, j, b);
      OpenPlaced(v, root, m, i, curr, b, it[j]);
    }
  }

  lemma OpenReady(v: View, root: nat, ls: seq<int>, m: nat, k: nat, i: nat, curr: nat)
    requires k < |ls| && 1 <= root < ls[k] && root <= m && Based(v, root, m) && i == Number(WordAt(ls, k)[..root]) < Pow2(root)
    requires 1 <= curr < 16 && root + curr <= m && v.next + Pow2(v.curr) + Pow2(curr) <= |v.tab|
    requires Roomy(ls, root, curr, k)
    ensures Ready(Opened(v, root, i, curr), root, ls, m, k)
  {
  }

  /** When all strings are right, lookups give the entries. */
  lemma RightGives(v: View, root: nat, it: seq<Entry>, ls: seq<int>, m: nat, k: nat, b: seq<bool>)
    requires Right(v, root, it, ls, m, |ls|) && In(ls, m, k, b) && it[k].bits == ls[k] && !IsLink(it[k])
    ensures Gives(v.tab, root, b, it[k])
  {
    assert Placed(v, root, b, it[k]);
  }
}
