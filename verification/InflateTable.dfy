/** inflate_table of inftrees.c: from code lengths to decoding tables. */
module InflateTable {
  import opened Sequences
  import opened Bits
  import opened CodeWords
  import opened WordOrder
  import opened TableFill
  import opened TableSizes

  datatype Kind = Codes | Lens | Dists

  /** Base value and extra bits of a length symbol, as it counts from 257; the last two are not in use. */
  function LengthBase(i: nat): nat
    requires i < 31
  {
    [3, 4, 5, 6, 7, 8, 9, 10, 11, 13, 15, 17, 19, 23, 27, 31, 35, 43, 51, 59, 67, 83, 99, 115, 131, 163, 195, 227, 258, 0, 0][i]
  }

  function LengthExtra(i: nat): (x: nat)
    requires i < 31
    ensures x >= 16
  {
    [16, 16, 16, 16, 16, 16, 16, 16, 17, 17, 17, 17, 18, 18, 18, 18, 19, 19, 19, 19, 20, 20, 20, 20, 21, 21, 21, 21, 16, 78, 68][i]
  }

  /** The same for a distance symbol. */
  function DistBase(i: nat): nat
    requires i < 32
  {
    [1, 2, 3, 4, 5, 7, 9, 13, 17, 25, 33, 49, 65, 97, 129, 193, 257, 385, 513, 769, 1025, 1537, 2049, 3073, 4097, 6145,
     8193, 12289, 16385, 24577, 0, 0][i]
  }

  function DistExtra(i: nat): (x: nat)
    requires i < 32
    ensures x >= 16
  {
    [16, 16, 16, 16, 17, 17, 18, 18, 19, 19, 20, 20, 21, 21, 22, 22, 23, 23, 24, 24, 25, 25, 26, 26, 27, 27, 28, 28, 29, 29, 64, 64][i]
  }

  /** How many symbols there are base values for. */
  function Alphabet(kind: Kind): nat {
    match kind case Codes => 19 case Lens => 288 case Dists => 32
  }

  /** The entry for a symbol, with a number of bits. */
  function EntryFor(kind: Kind, s: nat, bits: nat): (e: Entry)
    requires s < Alphabet(kind)
    ensures e.bits == bits && !IsLink(e)
  {
    match kind
    case Codes => Entry(0, bits, s)
    case Lens =>
      if s < 256 then Entry(0, bits, s) else if s > 256 then Entry(LengthExtra(s - 257), bits, LengthBase(s - 257)) else Entry(32 + 64, bits, 0)
    case Dists => Entry(DistExtra(s), bits, DistBase(s))
  }

  /** The space provided for tables, where it is checked. */
  predicate Enough(kind: Kind, used: nat) {
    match kind case Codes => true case Lens => used < 852 case Dists => used < 592
  }

  /** The space that every call has at its table. */
  function Provided(kind: Kind, root: nat): nat {
    match kind case Codes => Pow2(root) case Lens => 852 case Dists => 592
  }

  /** The symbols in the order of their words, and their entries. */
  ghost predicate Listed(kind: Kind, lens: seq<int>, work: seq<int>, ls: seq<int>, it: seq<Entry>) {
    |ls| == |it| <= |work| && forall k :: 0 <= k < |ls| ==> ListedAt(kind, lens, work[k], ls[k], it[k])
  }

  ghost predicate ListedAt(kind: Kind, lens: seq<int>, s: int, l: int, e: Entry) {
    0 <= s < |lens| && s < Alphabet(kind) && lens[s] == l >= 0 && e == EntryFor(kind, s, l)
  }

  /** What the loop needs to know of the code. */
  ghost predicate Sound(ls: seq<int>, m: nat, root: nat) {
    && Ordered(ls, m) && |ls| > 0 && 1 <= ls[0] <= root <= m <= 15 && ls[|ls| - 1] == m
    && (Taken(ls, m, |ls|) == Pow2(m) || m == 1)
  }

  lemma EnterIndex(w: seq<bool>, huff: nat, drop: nat, curr: nat)
    requires drop <= |w| <= drop + curr && huff == Number(w)
    ensures var l := |w| - drop; huff / Pow2(drop) == Number(w[drop..]) < Pow2(l) && Pow2(curr) == Pow2(curr - l) * Pow2(l)
  {
    NumberDiv(w, drop, huff, Pow2(drop));
    BitsOfNumber(w[drop..]);
    var l := |w| - drop;
    Pow2Add(curr - l, l);
    assert curr - l + l == curr;
  }

  /** Writes the entries for the k-th word. */
  method EnterWord(table: array<Entry>, here: Entry, huff: nat, len: nat, drop: nat, next: nat, curr: nat,
                   ghost low: int, ghost root: nat, ghost it: seq<Entry>, ghost ls: seq<int>, ghost m: nat, ghost k: nat)
    requires Sound(ls, m, root) && k < |ls| == |it| && len == ls[k] && (forall i :: 0 <= i < |ls| ==> it[i].bits == ls[i])
    requires drop == (if len <= root then 0 else root) && here == Here(root, it, ls, k) && huff == Number(WordAt(ls, k))
    requires Ready(View(table[..], next, curr, low), root, ls, m, k) && Right(View(table[..], next, curr, low), root, it, ls, m, k)
    modifies table
    ensures Ready(View(table[..], next, curr, low), root, ls, m, k) && Right(View(table[..], next, curr, low), root, it, ls, m, k + 1)
  {
    ghost var v := View(table[..], next, curr, low);
    if len > root { ReadyFits(v, root, ls, m, k); }
    EnterIndex(WordAt(ls, k), huff, drop, curr);
    Replicate(table, next, huff / Pow2(drop), Pow2(len - drop), Pow2(curr), here, Pow2(curr - (len - drop)));
    ghost var v' := View(table[..], next, curr, low);
    EnterReady(v, v', root, it, ls, m, k);
    EnterRight(v, v', root, it, ls, m, k);
  }

  // ---- Going on to the next word ----

  /** The k-th word belongs in another table than the one in hand. */
  lemma OpensWhen(v: View, root: nat, ls: seq<int>, m: nat, k: nat)
    requires Sound(ls, m, root) && 0 < k < |ls| && Ready(v, root, ls, m, k - 1) && root < ls[k]
    ensures Opens(ls, root, k) <==> Number(WordAt(ls, k)[..root]) != v.low
    ensures Opens(ls, root, k) ==> Taken(ls, m, k) == Cell(ls, root, k) * Share(m, root)
  {
    if ls[k - 1] > root { CellByIndex(ls, root, k - 1, k); }
    if Number(WordAt(ls, k)[..root]) != v.low { NextOpens(v, root, ls, m, k - 1); }
  }

  /** A cell ends within the code. */
  lemma EndFits(ls: seq<int>, m: nat, root: nat, k: nat)
    requires Sound(ls, m, root) && k < |ls| && root < ls[k] && Taken(ls, m, k) == Cell(ls, root, k) * Share(m, root)
    ensures Taken(ls, m, k) + Share(m, root) <= Taken(ls, m, |ls|)
  {
    assert ls[k] <= m;
    CellSeal(9, ls, root, k);
    ValueBound(WordAt(ls, k)[..root]);
    ShareSplit(m, 0, root);
    EndBelow(Cell(ls, root, k), Pow2(root), Share(m, root), Taken(ls, m, k));
  }

  lemma EndBelow(c: nat, q: nat, s: nat, t: nat)
    requires c < q && t == c * s
    ensures t + s <= q * s
  {
    TimesSum(c, 1, s);
    TimesAtMost(c + 1, q, s);
  }

  /** The size that the look ahead finds is right for the cell. */
  lemma SizeRight(ls: seq<int>, m: nat, root: nat, k: nat, end: int, curr: nat)
    requires Sound(ls, m, root) && k < |ls| && root < ls[k] && Opens(ls, root, k) && Taken(ls, m, k) == Cell(ls, root, k) * Share(m, root)
    requires end == Taken(ls, m, k) + Share(m, root) && Reaching(ls, m, k, end, root + curr)
    ensures Roomy(ls, root, curr, k) && Space(ls, root, k + 1) == Space(ls, root, k) + Pow2(curr)
  {
    EndFits(ls, m, root, k);
    OpensSpans(ls, m, root, k, end);
    ReachingRoomy(ls, m, root, k, end, curr);
    ReachingIsLongest(ls, m, root, k, end, curr);
    SpaceMore(ls, root, k, curr);
  }

  /** Puts the link to a new sub-table in place. */
  method LinkTable(table: array<Entry>, next: nat, curr: nat, low: nat, root: nat, ghost next0: nat, ghost curr0: nat, ghost low0: int,
                   ghost it: seq<Entry>, ghost ls: seq<int>, ghost m: nat, ghost k: nat)
    requires Sound(ls, m, root) && 0 < k < |ls| && root < ls[k] && low == Number(WordAt(ls, k)[..root])
    requires Ready(View(table[..], next0, curr0, low0), root, ls, m, k - 1) && Right(View(table[..], next0, curr0, low0), root, it, ls, m, k)
    requires next == next0 + Pow2(curr0) && next + Pow2(curr) <= table.Length && 1 <= curr && root + curr <= m
    requires Roomy(ls, root, curr, k) && Taken(ls, m, k) == Cell(ls, root, k) * Share(m, root)
    modifies table
    ensures Ready(View(table[..], next, curr, low), root, ls, m, k) && Right(View(table[..], next, curr, low), root, it, ls, m, k)
  {
    ghost var v := View(table[..], next0, curr0, low0);
    TableFill.Below(WordAt(ls, k), root);
    ReadyBased(v, root, ls, m, k - 1);
    OpenRight(v, root, it, ls, m, k, low, curr);
    OpenReady(v, root, ls, m, k, low, curr);
    table[low] := Entry(curr, root, next);
    assert View(table[..], next, curr, low) == Opened(v, root, low, curr);
  }

  /** Opens a sub-table for the k-th word, if there is space. */
  method OpenTable(kind: Kind, table: array<Entry>, count: seq<int>, huff: nat, len: nat, max: nat, root: nat, next0: nat, curr0: nat, low0: int, used0: nat,
                   ghost it: seq<Entry>, ghost ls: seq<int>, ghost k: nat) returns (ok: bool, next: nat, curr: nat, low: int, used: nat)
    requires Sound(ls, max, root) && 0 < k < |ls| && root < len == ls[k] && huff == Number(WordAt(ls, k)) && Counts(count, ls, max, k)
    requires Ready(View(table[..], next0, curr0, low0), root, ls, max, k - 1) && Right(View(table[..], next0, curr0, low0), root, it, ls, max, k)
    requires huff % Pow2(root) != low0 && used0 == next0 + Pow2(curr0) == Space(ls, root, k)
    requires kind != Codes && Provided(kind, root) <= table.Length
    modifies table
    ensures used == Space(ls, root, k + 1) && (ok <==> Enough(kind, used))
    ensures ok ==> used == next + Pow2(curr)
    ensures ok ==> Ready(View(table[..], next, curr, low), root, ls, max, k) && Right(View(table[..], next, curr, low), root, it, ls, max, k)
  {
    ghost var v := View(table[..], next0, curr0, low0);
    NumberDiv(WordAt(ls, k), root, huff, Pow2(root));
    OpensWhen(v, root, ls, max, k);
    next := next0 + Pow2(curr0);
    ghost var end := Taken(ls, max, k) + Share(max, root);
    curr := TableBits(count, len, root, max, ls, k, end);
    SizeRight(ls, max, root, k, end, curr);
    used := used0 + Pow2(curr);
    low := huff % Pow2(root);
    ok := Enough(kind, used);
    if ok {
      LinkTable(table, next, curr, low, root, next0, curr0, low0, it, ls, max, k);
    }
  }

  /** The word after the k-th; past the last one, 0 if the code is complete and 1 if it is a single
      word of one bit. */
  method NextHuff(huff: nat, len: nat, ghost ls: seq<int>, ghost m: nat, ghost root: nat, ghost k: nat) returns (next: nat)
    requires Sound(ls, m, root) && k < |ls| && len == ls[k] && huff == Number(WordAt(ls, k))
    ensures k + 1 < |ls| ==> next == Number(WordAt(ls, k + 1))
    ensures k + 1 == |ls| ==> next == if Taken(ls, m, |ls|) == Pow2(m) then 0 else 1
  {
    WordIsCode(ls, m, k);
    next := BackIncrement(huff, len, WordAt(ls, k));
    if k + 1 < |ls| {
      WordAfter(ls, m, k);
    } else {
      LastTaken(ls, m, root);
      if Taken(ls, m, |ls|) != Pow2(m) { OneIsOne(); }
    }
  }

  lemma OneIsOne()
    ensures Number(WordOf(1, 1)) == 1
  {
    var w := WordOf(1, 1);
    assert WordOf(0, 0) == [];
    assert w[0] && w[1..] == [];
  }

  /** After the last word the code is used up, or only the word of a single zero was there. */
  lemma LastTaken(ls: seq<int>, m: nat, root: nat)
    requires Sound(ls, m, root)
    ensures var c := CodeAt(ls, |ls| - 1) + 1; Taken(ls, m, |ls|) == c && (Taken(ls, m, |ls|) != Pow2(m) ==> c == 1 && |ls| == 1 && m == 1)
  {
    TakenIsCode(ls, m, |ls| - 1);
    assert Share(m, m) == 1;
    if m == 1 { AllOnes(ls); }
  }

  lemma AllOnes(ls: seq<int>)
    requires Rising(ls, 1)
    ensures Taken(ls, 1, |ls|) == |ls| && Pow2(1) == 2
  {
    TakenRun(ls, 1, 1, 0, |ls|);
  }

  // ---- All words ----

  /** Every string finds the entry of its word, and a string without one the invalid marker. */
  ghost predicate AllGiven(tab: seq<Entry>, root: nat, it: seq<Entry>, ls: seq<int>, m: nat) {
    && |it| == |ls|
    && (forall k: nat, b :: In(ls, m, k, b) ==> Gives(tab, root, b, it[k]))
    && (forall b: seq<bool> :: NotTaken(ls, m, b) ==> Gives(tab, root, b, Invalid()))
  }

  ghost predicate NotTaken(ls: seq<int>, m: nat, b: seq<bool>) { |b| == m && Value(b) >= Taken(ls, m, |ls|) }

  function Invalid(): Entry { Entry(64, 1, 0) }

  lemma GivenComplete(v: View, root: nat, it: seq<Entry>, ls: seq<int>, m: nat)
    requires |it| == |ls| && Right(v, root, it, ls, m, |ls|) && Taken(ls, m, |ls|) == Pow2(m)
    requires forall k :: 0 <= k < |ls| ==> it[k].bits == ls[k] && !IsLink(it[k])
    ensures AllGiven(v.tab, root, it, ls, m)
  {
    forall k: nat, b | In(ls, m, k, b) ensures Gives(v.tab, root, b, it[k]) {
      RightGives(v, root, it, ls, m, k, b);
    }
    forall b: seq<bool> ensures !NotTaken(ls, m, b) {
      ValueBound(b);
    }
  }

  lemma OneBit(b: seq<bool>)
    requires |b| == 1
    ensures Value(b) == Number(b) == if b[0] then 1 else 0
  {
    assert b[..0] == [] && b[1..] == [];
  }

  lemma GivenSingle(v: View, root: nat, it: seq<Entry>, ls: seq<int>, m: nat)
    requires |it| == |ls| == 1 && m == root == 1 && Right(v, root, it, ls, m, 1) && Taken(ls, m, 1) == 1 && |v.tab| >= 2
    requires it[0].bits == ls[0] && !IsLink(it[0])
    ensures AllGiven(v.tab[1 := Invalid()], root, it, ls, m)
  {
    var tab := v.tab[1 := Invalid()];
    forall k: nat, b | In(ls, m, k, b) ensures Gives(tab, root, b, it[k]) {
      OneBit(b);
      assert b[..1] == b;
      RightGives(v, root, it, ls, m, k, b);
    }
    forall b: seq<bool> | NotTaken(ls, m, b) ensures Gives(tab, root, b, Invalid()) {
      OneBit(b);
      assert b[..1] == b;
    }
  }

  /** Where the loop stands: the word in hand, the table being filled, and the space used. */
  datatype Cursor = Cursor(huff: nat, len: nat, drop: nat, next: nat, curr: nat, low: int, used: nat)

  ghost predicate Filling(c: Cursor, tab: seq<Entry>, root: nat, it: seq<Entry>, ls: seq<int>, m: nat, k: nat, done: nat)
    requires k < |ls| && ls[k] >= 0
  {
    && c.drop == (if ls[k] <= root then 0 else root) && c.used == c.next + Pow2(c.curr) == Space(ls, root, k + 1)
    && Ready(View(tab, c.next, c.curr, c.low), root, ls, m, k) && Right(View(tab, c.next, c.curr, c.low), root, it, ls, m, done)
  }

  /** Before the k-th word. */
  ghost predicate Before(c: Cursor, tab: seq<Entry>, count: seq<int>, root: nat, it: seq<Entry>, ls: seq<int>, m: nat, k: nat) {
    && k < |ls| && c.len == ls[k] && c.huff == Number(WordAt(ls, k)) && Counts(count, ls, m, k)
    && Filling(c, tab, root, it, ls, m, k, k)
  }

  /** After the k-th word, with the next one in hand if there is one. */
  ghost predicate After(c: Cursor, tab: seq<Entry>, count: seq<int>, root: nat, it: seq<Entry>, ls: seq<int>, m: nat, k: nat) {
    && k < |ls| && 0 <= ls[k] && Filling(c, tab, root, it, ls, m, k, k + 1)
    && if k + 1 < |ls| then 0 <= c.len == ls[k + 1] && c.huff == Number(WordAt(ls, k + 1)) && Counts(count, ls, m, k + 1)
       else c.len == ls[k] && c.huff == if Taken(ls, m, |ls|) == Pow2(m) then 0 else 1
  }

  /** One word less of its length; the length of the next. */
  method CountDown(ghost kind: Kind, lens: seq<int>, work: seq<int>, count: array<int>, max: nat, len: nat, sym: nat,
                   ghost ls: seq<int>, ghost it: seq<Entry>) returns (last: bool, len': nat)
    requires Rising(ls, max) && sym < |ls| && ls[|ls| - 1] == max && Listed(kind, lens, work, ls, it)
    requires Counts(count[..], ls, max, sym) && len == ls[sym]
    modifies count
    ensures last <==> sym + 1 == |ls|
    ensures if last then len' == len else len' == ls[sym + 1] && Counts(count[..], ls, max, sym + 1)
  {
    CountsNext(count[..], ls, max, sym);
    ghost var was := count[..];
    count[len] := count[len] - 1;
    assert count[..] == was[len := was[len] - 1];
    last, len' := false, len;
    if count[len] == 0 {
      if len == max {
        return true, len;
      }
      assert ListedAt(kind, lens, work[sym + 1], ls[sym + 1], it[sym + 1]);
      len' := lens[work[sym + 1]];
    } else if sym + 1 < |ls| {
      assert ls[sym] <= ls[sym + 1];
    }
  }

  /** Enters the k-th word and takes the next one in hand. */
  method EnterNext(kind: Kind, lens: seq<int>, work: seq<int>, count: array<int>, table: array<Entry>, root: nat, max: nat, c: Cursor, sym: nat,
                   ghost ls: seq<int>, ghost it: seq<Entry>) returns (last: bool, c': Cursor)
    requires Sound(ls, max, root) && Listed(kind, lens, work, ls, it)
    requires Before(c, table[..], count[..], root, it, ls, max, sym)
    modifies table, count
    ensures After(c', table[..], count[..], root, it, ls, max, sym) && (last <==> sym + 1 == |ls|)
  {
    assert ListedAt(kind, lens, work[sym], ls[sym], it[sym]);
    Entries(kind, lens, work, ls, it);
    EnterWord(table, EntryFor(kind, work[sym], c.len - c.drop), c.huff, c.len, c.drop, c.next, c.curr, c.low, root, it, ls, max, sym);
    var huff := NextHuff(c.huff, c.len, ls, max, root, sym);
    var len;
    last, len := CountDown(kind, lens, work, count, max, c.len, sym, ls, it);
    c' := c.(huff := huff, len := len);
  }

  /** Opens a sub-table for the next word if it needs one: ok when the space is enough. */
  method Advance(kind: Kind, count: array<int>, table: array<Entry>, root: nat, max: nat, c: Cursor, ghost sym: nat,
                 ghost ls: seq<int>, ghost it: seq<Entry>) returns (ok: bool, c': Cursor)
    requires Sound(ls, max, root) && sym + 1 < |ls| && After(c, table[..], count[..], root, it, ls, max, sym) && Enough(kind, c.used)
    requires (kind == Codes ==> max <= root) && Provided(kind, root) <= table.Length
    modifies table
    ensures ok ==> Before(c', table[..], count[..], root, it, ls, max, sym + 1) && Enough(kind, c'.used)
    ensures !ok ==> !Enough(kind, Space(ls, root, sym + 2))
  {
    if c.len > root && c.huff % Pow2(root) != c.low {
      assert ls[sym + 1] <= max;
      var next, curr, low, used;
      ok, next, curr, low, used := OpenTable(kind, table, count[..], c.huff, c.len, max, root, c.next, c.curr, c.low, c.used, it, ls, sym + 1);
      c' := Cursor(c.huff, c.len, root, next, curr, low, used);
    } else {
      StayReady(View(table[..], c.next, c.curr, c.low), root, ls, max, sym, c.huff);
      ok, c' := true, c;
    }
  }

  /** The loop over all words: ok when the space is enough. */
  method FillTables(kind: Kind, lens: seq<int>, work: seq<int>, count: array<int>, table: array<Entry>, root: nat, min: nat, max: nat,
                    ghost ls: seq<int>, ghost it: seq<Entry>) returns (ok: bool, used: nat)
    requires Sound(ls, max, root) && min == ls[0] && Listed(kind, lens, work, ls, it) && Counts(count[..], ls, max, 0)
    requires (kind == Codes ==> max <= root) && Provided(kind, root) <= table.Length
    modifies table, count
    ensures ok <==> Enough(kind, Space(ls, root, |ls|))
    ensures ok ==> used == Space(ls, root, |ls|) && AllGiven(table[..], root, it, ls, max)
  {
    var c, sym := Cursor(0, min, 0, 0, root, -1, Pow2(root)), 0;
    used := c.used;
    if !Enough(kind, used) {
      SpaceMonotone(ls, root, 0, |ls|);
      return false, used;
    }
    StartBefore(c, table[..], count[..], root, it, ls, max);
    var last;
    while true
      invariant Before(c, table[..], count[..], root, it, ls, max, sym) && Enough(kind, c.used)
      decreases |ls| - sym
    {
      last, c := EnterNext(kind, lens, work, count, table, root, max, c, sym, ls, it);
      if last {
        break;
      }
      ok, c := Advance(kind, count, table, root, max, c, sym, ls, it);
      sym := sym + 1;
      if !ok {
        SpaceMonotone(ls, root, sym + 1, |ls|);
        return;
      }
    }
    FillLast(kind, lens, work, count[..], table, root, max, c, ls, it);
    ok, used := true, c.used;
  }

  /** The invalid marker, where a string is left without a word. */
  method FillLast(ghost kind: Kind, ghost lens: seq<int>, ghost work: seq<int>, ghost count: seq<int>, table: array<Entry>, root: nat, ghost max: nat,
                  c: Cursor, ghost ls: seq<int>, ghost it: seq<Entry>)
    requires Sound(ls, max, root) && Listed(kind, lens, work, ls, it) && Pow2(root) <= table.Length
    requires After(c, table[..], count, root, it, ls, max, |ls| - 1)
    modifies table
    ensures AllGiven(table[..], root, it, ls, max) && c.used == Space(ls, root, |ls|)
  {
    Entries(kind, lens, work, ls, it);
    ghost var v := View(table[..], c.next, c.curr, c.low);
    LastTaken(ls, max, root);
    if c.huff != 0 {
      assert Pow2(1) == 2;
      table[c.next + c.huff] := Entry(64, c.len - c.drop, 0);
      assert table[..] == v.tab[1 := Invalid()];
      GivenSingle(v, root, it, ls, max);
    } else {
      GivenComplete(v, root, it, ls, max);
    }
  }

  lemma Entries(kind: Kind, lens: seq<int>, work: seq<int>, ls: seq<int>, it: seq<Entry>)
    requires Listed(kind, lens, work, ls, it)
    ensures forall k :: 0 <= k < |ls| ==> it[k].bits == ls[k] && !IsLink(it[k])
  {
    forall k | 0 <= k < |ls| ensures it[k].bits == ls[k] && !IsLink(it[k]) {
      assert ListedAt(kind, lens, work[k], ls[k], it[k]);
    }
  }

  /** The next word goes into the table in hand. */
  lemma StayReady(v: View, root: nat, ls: seq<int>, m: nat, k: nat, huff: nat)
    requires Sound(ls, m, root) && k + 1 < |ls| && Ready(v, root, ls, m, k) && huff == Number(WordAt(ls, k + 1))
    requires ls[k + 1] <= root || huff % Pow2(root) == v.low
    ensures Ready(v, root, ls, m, k + 1) && Space(ls, root, k + 2) == Space(ls, root, k + 1) && (ls[k + 1] > root ==> ls[k] > root)
  {
    if ls[k + 1] > root {
      NumberDiv(WordAt(ls, k + 1), root, huff, Pow2(root));
      OpensWhen(v, root, ls, m, k + 1);
    }
    ReadyNext(v, root, ls, m, k);
    SpaceSame(ls, root, k + 1);
  }

  lemma StartBefore(c: Cursor, tab: seq<Entry>, count: seq<int>, root: nat, it: seq<Entry>, ls: seq<int>, m: nat)
    requires Sound(ls, m, root) && |it| == |ls| && c == Cursor(0, ls[0], 0, 0, root, -1, Pow2(root)) && Counts(count, ls, m, 0)
    requires Pow2(root) <= |tab|
    ensures Before(c, tab, count, root, it, ls, m, 0) && c.used == Space(ls, root, 1)
  {
    FirstWord(ls, m, root);
  }

  lemma FirstWord(ls: seq<int>, m: nat, root: nat)
    requires Sound(ls, m, root)
    ensures Number(WordAt(ls, 0)) == 0 && Space(ls, root, 1) == Pow2(root)
  {
    WordIsCode(ls, m, 0);
    ValueFalses(ls[0]);
    SameValue(WordAt(ls, 0), Falses(ls[0]));
    NumberFalses(ls[0]);
    assert Space(ls, root, 0) == Pow2(root);
  }
}
