/** The initial run-length code of a block: what it expands to, and that the pairs the
    compressor writes expand back to the bytes it read. */
module RunLength {
  import opened Sequences

  function Rep(c: Byte, n: nat): (r: seq<Byte>)
    ensures |r| == n && forall k :: 0 <= k < n ==> r[k] == c
  {
    seq(n, _ => c)
  }

  /** The bytes a block stands for. A block that ends in four equal symbols with no count is
      corrupt: its last run takes the symbol fetched past the end as its count. */
  datatype Expansion = Expansion(bytes: seq<Byte>, corrupt: bool)

  ghost predicate FourEqual(c: seq<Byte>) { |c| >= 4 && c[0] == c[1] == c[2] == c[3] }

  /** Four equal symbols are followed by a count of further copies. The symbol w is the one
      fetched after the block. */
  ghost function Expand(c: seq<Byte>, w: Byte): Expansion
    decreases |c|
  {
    if |c| == 0 then Expansion([], false)
    else if FourEqual(c) then
      if |c| == 4 then Expansion(Rep(c[0], 4 + w as int), true)
      else Prepend(Rep(c[0], 4 + c[4] as int), Expand(c[5..], w))
    else Prepend([c[0]], Expand(c[1..], w))
  }

  ghost function Prepend(s: seq<Byte>, e: Expansion): Expansion {
    Expansion(s + e.bytes, e.corrupt)
  }

  lemma PrependPrepend(s: seq<Byte>, t: seq<Byte>, e: Expansion)
    ensures Prepend(s, Prepend(t, e)) == Prepend(s + t, e)
  {
  }

  lemma {:induction false} ExpandNonempty(c: seq<Byte>, w: Byte)
    requires |c| > 0
    ensures |Expand(c, w).bytes| > 0
  {
  }

  /** A run of fewer than four equal symbols stands for itself. */
  lemma {:induction false} ExpandShortRun(c: seq<Byte>, w: Byte, n: nat)
    requires 1 <= n <= 3 && n <= |c|
    requires forall k :: 0 <= k < n ==> c[k] == c[0]
    requires n == |c| || c[n] != c[0]
    ensures Expand(c, w) == Prepend(Rep(c[0], n), Expand(c[n..], w))
    decreases n
  {
    assert !FourEqual(c);
    if n == 1 {
      assert Rep(c[0], 1) == [c[0]];
    } else {
      ExpandShortRun(c[1..], w, n - 1);
      assert c[1..][n - 1..] == c[n..];
      PrependPrepend([c[0]], Rep(c[0], n - 1), Expand(c[n..], w));
      assert [c[0]] + Rep(c[0], n - 1) == Rep(c[0], n);
    }
  }

  /** The run at the front of a block: how many bytes it stands for, and how many symbols it
      takes. The fifth symbol of a corrupt last run comes from past the end. */
  ghost function FirstRun(c: seq<Byte>, w: Byte): (nat, nat)
    requires |c| > 0
  {
    if |c| == 1 || c[1] != c[0] then (1, 1)
    else if |c| == 2 || c[2] != c[0] then (2, 2)
    else if |c| == 3 || c[3] != c[0] then (3, 3)
    else (4 + (if |c| > 4 then c[4] else w) as int, 5)
  }

  lemma {:induction false} ExpandFirstRun(c: seq<Byte>, w: Byte)
    requires |c| > 0
    ensures var (n, k) := FirstRun(c, w);
            Expand(c, w) == Prepend(Rep(c[0], n), if k <= |c| then Expand(c[k..], w) else Expansion([], true))
  {
    var (n, k) := FirstRun(c, w);
    if n < 4 {
      ExpandShortRun(c, w, n);
    } else if |c| == 4 {
      assert Rep(c[0], n) + [] == Rep(c[0], n);
    }
  }

  /** A run of 1 to 255 equal bytes, as read by the compressor. */
  datatype Run = Run(ch: Byte, len: int)

  /** The bytes add_pair_to_block writes for a run. */
  function Pair(r: Run): (c: seq<Byte>)
    requires 1 <= r.len <= 255
    ensures 1 <= |c| <= 5 && c[0] == r.ch
  {
    if r.len < 4 then Rep(r.ch, r.len) else Rep(r.ch, 4) + [r.len - 4]
  }

  /** Consecutive runs differ in byte, unless the first one is full. */
  ghost predicate WellFormed(rs: seq<Run>) {
    && (forall k :: 0 <= k < |rs| ==> 1 <= rs[k].len <= 255)
    && (forall k :: 0 < k < |rs| ==> rs[k - 1].ch != rs[k].ch || rs[k - 1].len == 255)
  }

  /** The block written for the runs. */
  ghost function Pairs(rs: seq<Run>): seq<Byte>
    requires WellFormed(rs)
  {
    if |rs| == 0 then [] else Pairs(rs[..|rs| - 1]) + Pair(rs[|rs| - 1])
  }

  /** The bytes read into the runs. */
  ghost function RunBytes(rs: seq<Run>): seq<Byte>
    requires WellFormed(rs)
  {
    if |rs| == 0 then [] else RunBytes(rs[..|rs| - 1]) + Rep(rs[|rs| - 1].ch, rs[|rs| - 1].len)
  }

  lemma {:induction false} PairsFromFront(rs: seq<Run>)
    requires WellFormed(rs) && |rs| > 0
    ensures WellFormed(rs[1..]) && Pairs(rs) == Pair(rs[0]) + Pairs(rs[1..])
    decreases |rs|
  {
    if |rs| > 1 {
      var a, t := rs[..|rs| - 1], rs[1..];
      PairsFromFront(a);
      assert t[..|t| - 1] == a[1..];
    }
  }

  lemma {:induction false} RunBytesFromFront(rs: seq<Run>)
    requires WellFormed(rs) && |rs| > 0
    ensures WellFormed(rs[1..]) && RunBytes(rs) == Rep(rs[0].ch, rs[0].len) + RunBytes(rs[1..])
    decreases |rs|
  {
    if |rs| > 1 {
      var a, t := rs[..|rs| - 1], rs[1..];
      RunBytesFromFront(a);
      assert t[..|t| - 1] == a[1..];
    }
  }

  /** One pair in front of a block expands to its run, unless a short run would run on. */
  lemma ExpandPair(r: Run, rest: seq<Byte>, w: Byte)
    requires 1 <= r.len <= 255 && (r.len < 4 && |rest| > 0 ==> rest[0] != r.ch)
    ensures Expand(Pair(r) + rest, w) == Prepend(Rep(r.ch, r.len), Expand(rest, w))
  {
    var c := Pair(r) + rest;
    if r.len < 4 {
      assert c[r.len..] == rest;
      ExpandShortRun(c, w, r.len);
    } else {
      assert FourEqual(c) && c[4] == r.len - 4 && c[5..] == rest;
    }
  }

  /** Expanding the pairs gives back the bytes, whatever symbol follows the block. */
  lemma {:induction false} RunsRoundTrip(rs: seq<Run>, w: Byte)
    requires WellFormed(rs)
    ensures Expand(Pairs(rs), w) == Expansion(RunBytes(rs), false)
    decreases |rs|
  {
    if |rs| > 0 {
      PairsFromFront(rs);
      RunBytesFromFront(rs);
      RunsRoundTrip(rs[1..], w);
      if |rs| > 1 { PairsFromFront(rs[1..]); }
      ExpandPair(rs[0], Pairs(rs[1..]), w);
    }
  }
}
