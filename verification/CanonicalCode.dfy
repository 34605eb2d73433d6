/** Canonical prefix codes: BZ2_hbAssignCodes and BZ2_hbCreateDecodeTables of huffman.c, and the
    loop of GET_MTF_VAL in decompress.c that decodes one symbol. */
module CanonicalCode {
  import opened Sequences
  import opened Bits
  import opened BitIO

  /** The longest code a decoder accepts. */
  const LongestCode: nat := 20

  ghost predicate Between(len: seq<int>, lo: int, hi: int) {
    forall i :: 0 <= i < |len| ==> lo <= len[i] <= hi
  }

  /** The first code of length n. */
  function First(len: seq<int>, n: nat): nat {
    if n == 0 then 0 else 2 * (First(len, n - 1) + Count(len, n - 1))
  }

  /** The number just past the last code of length n. */
  function Past(len: seq<int>, n: nat): nat { First(len, n) + Count(len, n) }

  /** The code of symbol i: those of one length are numbered in symbol order. */
  function Code(len: seq<int>, i: int): nat
    requires 0 <= i < |len| && len[i] >= 0
  {
    First(len, len[i]) + Count(len[..i], len[i])
  }

  function CodeBits(len: seq<int>, i: int): seq<bool>
    requires 0 <= i < |len| && len[i] >= 0
  {
    ToBits(Code(len, i), len[i])
  }

  /** The bits z begin with the code of symbol i. */
  ghost predicate Matches(len: seq<int>, i: int, z: seq<bool>)
    requires 0 <= i < |len| && len[i] >= 0
  {
    len[i] <= |z| && Value(z[..len[i]]) == Code(len, i)
  }

  // ---- The Kraft sum ----

  /** The Kraft sum in units of one code of length m. */
  function KraftSum(len: seq<int>, m: nat): nat
    requires Between(len, 0, m)
  {
    if |len| == 0 then 0
    else KraftSum(len[..|len| - 1], m) + Pow2(m - len[|len| - 1])
  }

  /** The part of the sum due to lengths below n. */
  ghost function KraftBelow(len: seq<int>, n: nat, m: nat): nat
    requires n <= m + 1
  {
    if n == 0 then 0 else KraftBelow(len, n - 1, m) + Count(len, n - 1) * Pow2(m - (n - 1))
  }

  lemma {:induction false} KraftBelowNext(len: seq<int>, n: nat, m: nat)
    requires |len| > 0 && 0 <= len[|len| - 1] <= m && n <= m + 1
    ensures KraftBelow(len, n, m) ==
      KraftBelow(len[..|len| - 1], n, m) + (if len[|len| - 1] < n then Pow2(m - len[|len| - 1]) else 0)
  {
    if n > 0 {
      KraftBelowNext(len, n - 1, m);
      TimesSum(Count(len[..|len| - 1], n - 1), 1, Pow2(m - (n - 1)));
    }
  }

  lemma {:induction false} KraftBelowEmpty(n: nat, m: nat)
    requires n <= m + 1
    ensures KraftBelow([], n, m) == 0
  {
    if n > 0 { KraftBelowEmpty(n - 1, m); }
  }

  lemma {:induction false} KraftAll(len: seq<int>, m: nat)
    requires Between(len, 0, m)
    ensures KraftSum(len, m) == KraftBelow(len, m + 1, m)
  {
    if |len| == 0 {
      KraftBelowEmpty(m + 1, m);
    } else {
      KraftAll(len[..|len| - 1], m);
      KraftBelowNext(len, m + 1, m);
    }
  }

  lemma {:induction false} KraftBelowMonotone(len: seq<int>, a: nat, b: nat, m: nat)
    requires a <= b <= m + 1
    ensures KraftBelow(len, a, m) <= KraftBelow(len, b, m)
  {
    if a < b {
      KraftBelowMonotone(len, a, b - 1, m);
      TimesNatural(Count(len, b - 1), Pow2(m - (b - 1)));
    }
  }

  /** The codes of length n end where the sum of the codes up to that length has got to. */
  lemma {:induction false} PastIsKraft(len: seq<int>, n: nat, m: nat)
    requires n <= m
    ensures Past(len, n) * Pow2(m - n) == KraftBelow(len, n + 1, m)
  {
    var p := Pow2(m - n);
    if n == 0 {
      assert KraftBelow(len, 1, m) == Count(len, 0) * p;
    } else {
      PastIsKraft(len, n - 1, m);
      var q := Past(len, n - 1);
      assert Pow2(m - (n - 1)) == 2 * p;
      Doubled(q, p, Count(len, n));
    }
  }

  lemma Doubled(q: nat, p: nat, c: nat)
    ensures (2 * q + c) * p == q * (2 * p) + c * p
  {
    assert (2 * q + c) * p == 2 * q * p + c * p;
  }

  lemma KraftUpTo(len: seq<int>, n: nat, m: nat)
    requires Between(len, 0, m) && n <= m
    ensures Past(len, n) * Pow2(m - n) <= KraftSum(len, m)
  {
    PastIsKraft(len, n, m);
    KraftBelowMonotone(len, n + 1, m + 1, m);
    KraftAll(len, m);
  }

  lemma FitsIn(x: nat, n: nat, k: nat, m: nat, sum: nat)
    requires n + k == m && x * Pow2(k) <= sum <= Pow2(m)
    ensures x <= Pow2(n)
  {
    Pow2Add(n, k);
    CancelFactor(x, Pow2(n), Pow2(k));
  }

  /** Under Kraft's inequality the codes of each length fit. */
  lemma KraftFits(len: seq<int>, n: nat, m: nat)
    requires Between(len, 0, m) && KraftSum(len, m) <= Pow2(m) && n <= m
    ensures Past(len, n) <= Pow2(n)
  {
    KraftUpTo(len, n, m);
    FitsIn(Past(len, n), n, m - n, m, KraftSum(len, m));
  }

  lemma CancelFactor(x: int, y: int, p: int)
    requires p > 0 && x * p <= y * p
    ensures x <= y
  {
    MultipleAtLeast(x - y, p);
    assert (x - y) * p == x * p - y * p;
  }

  // ---- Codes are unambiguous ----

  lemma CodeRange(len: seq<int>, i: int)
    requires 0 <= i < |len| && len[i] >= 0
    ensures First(len, len[i]) <= Code(len, i) < Past(len, len[i])
  {
    CountNext(len, i, len[i]);
    CountMonotone(len, i + 1, |len|, len[i]);
    assert len[..|len|] == len;
  }

  lemma CodesDistinct(len: seq<int>, i: int, j: int)
    requires 0 <= i < j < |len| && len[i] == len[j] >= 0
    ensures Code(len, i) < Code(len, j)
  {
    CountNext(len, i, len[i]);
    CountMonotone(len, i + 1, j, len[i]);
  }

  lemma NextBit(z: seq<bool>, n: nat)
    requires n < |z|
    ensures Value(z[..n + 1]) == 2 * Value(z[..n]) + (if z[n] then 1 else 0)
  {
    assert z[..n + 1][..n] == z[..n];
  }

  /** Bits that stop at a code of length m are below every longer code. */
  lemma {:induction false} StopsEarly(len: seq<int>, z: seq<bool>, m: nat, n: nat)
    requires m < n <= |z| && Value(z[..m]) < Past(len, m)
    ensures Value(z[..n]) < First(len, n)
  {
    NextBit(z, n - 1);
    if m < n - 1 { StopsEarly(len, z, m, n - 1); }
  }

  /** Prefix freedom: at most one code stands at the front of any bits. */
  lemma MatchUnique(len: seq<int>, i: int, j: int, z: seq<bool>)
    requires 0 <= i < |len| && len[i] >= 0 && Matches(len, i, z)
    requires 0 <= j < |len| && len[j] >= 0 && Matches(len, j, z)
    ensures i == j
  {
    CodeRange(len, i);
    CodeRange(len, j);
    if len[i] < len[j] {
      StopsEarly(len, z, len[i], len[j]);
    } else if len[j] < len[i] {
      StopsEarly(len, z, len[j], len[i]);
    } else if i < j {
      CodesDistinct(len, i, j);
    } else if j < i {
      CodesDistinct(len, j, i);
    }
  }

  lemma BitsMatch(v: nat, n: nat, z: seq<bool>)
    requires v < Pow2(n)
    ensures n <= |z| && Value(z[..n]) == v <==> ToBits(v, n) <= z
  {
    ValueToBits(v, n);
    if n <= |z| {
      ToBitsValue(z[..n]);
      if ToBits(v, n) <= z { assert z[..n] == ToBits(v, n); }
    }
  }

  /** Under Kraft's inequality, bits match a symbol exactly when its code's bits lead them. */
  lemma MatchesCodeBits(len: seq<int>, i: int, m: nat, z: seq<bool>)
    requires Between(len, 0, m) && KraftSum(len, m) <= Pow2(m) && 0 <= i < |len|
    ensures Matches(len, i, z) <==> CodeBits(len, i) <= z
  {
    var n, v := len[i], Code(len, i);
    assert v < Pow2(n) by {
      CodeRange(len, i);
      KraftFits(len, n, m);
    }
    BitsMatch(v, n, z);
  }

  /** No code is a prefix of another. */
  lemma PrefixFree(len: seq<int>, m: nat, i: int, j: int)
    requires Between(len, 0, m) && KraftSum(len, m) <= Pow2(m) && 0 <= i < |len| && 0 <= j < |len|
    requires CodeBits(len, i) <= CodeBits(len, j)
    ensures i == j
  {
    var z := CodeBits(len, j);
    MatchesCodeBits(len, i, m, z);
    MatchesCodeBits(len, j, m, z);
    MatchUnique(len, i, j, z);
  }

  /** A code followed by anything is read back as its symbol, and only as that. */
  lemma CodeThenAnything(len: seq<int>, m: nat, i: int, tail: seq<bool>)
    requires Between(len, 0, m) && KraftSum(len, m) <= Pow2(m) && 0 <= i < |len|
    ensures var z := CodeBits(len, i) + tail;
      Matches(len, i, z) && z[len[i]..] == tail && forall j :: 0 <= j < |len| && Matches(len, j, z) ==> j == i
  {
    var z := CodeBits(len, i) + tail;
    MatchesCodeBits(len, i, m, z);
    forall j | 0 <= j < |len| && Matches(len, j, z) ensures j == i {
      MatchUnique(len, i, j, z);
    }
  }

  lemma {:induction false} FirstIsZero(len: seq<int>, n: nat, lo: nat, hi: int)
    requires Between(len, lo, hi) && n <= lo
    ensures First(len, n) == 0 && Below(len, n) == 0
  {
    if n > 0 {
      FirstIsZero(len, n - 1, lo, hi);
      Absent(len, n - 1, lo, hi);
    }
  }

  lemma {:induction false} Absent(len: seq<int>, x: int, lo: int, hi: int)
    requires Between(len, lo, hi) && !(lo <= x <= hi)
    ensures Count(len, x) == 0
  {
    if |len| > 0 { Absent(len[..|len| - 1], x, lo, hi); }
  }

  // ---- Assigning the codes ----

  /** The codes of lengths below n, and those of length n among the first i, are in place. */
  ghost predicate Assigned(code: seq<int>, len: seq<int>, n: int, i: int) {
    |len| <= |code| && Between(len, 0, |code|) &&
    forall k :: 0 <= k < |len| && (len[k] < n || (len[k] == n && k < i)) ==> code[k] == Code(len, k)
  }

  /** BZ2_hbAssignCodes. */
  method AssignCodes(code: array<int>, length: seq<int>, minLen: nat, maxLen: nat)
    requires |length| <= code.Length && maxLen <= code.Length && Between(length, minLen, maxLen)
    modifies code
    ensures forall k :: 0 <= k < |length| ==> code[k] == Code(length, k)
    ensures code[|length|..] == old(code[|length|..])
  {
    var vec := 0;
    FirstIsZero(length, minLen, minLen, maxLen);
    var n := minLen;
    while n <= maxLen
      invariant minLen <= n && vec == First(length, n)
      invariant Assigned(code[..], length, n, 0)
      invariant code[|length|..] == old(code[|length|..])
    {
      vec := AssignLevel(code, length, n, vec);
      vec := vec * 2;
      n := n + 1;
    }
  }

  /** Numbers the symbols of length n. */
  method AssignLevel(code: array<int>, length: seq<int>, n: nat, vec0: nat) returns (vec: nat)
    requires vec0 == First(length, n) && Assigned(code[..], length, n, 0)
    modifies code
    ensures vec == Past(length, n) && Assigned(code[..], length, n + 1, 0)
    ensures code[|length|..] == old(code[|length|..])
  {
    vec := vec0;
    for i := 0 to |length|
      invariant vec == vec0 + Count(length[..i], n)
      invariant Assigned(code[..], length, n, i)
      invariant code[|length|..] == old(code[|length|..])
    {
      CountNext(length, i, n);
      if length[i] == n {
        code[i] := vec;
        vec := vec + 1;
      }
    }
    assert length[..|length|] == length;
  }

  // ---- Decode tables ----

  /** What the decoder keeps for one coding table. */
  datatype Table = Table(minLen: nat, limit: seq<int>, base: seq<int>, perm: seq<int>)

  ghost predicate Permuted(perm: seq<int>, len: seq<int>, n: int, i: int) {
    Between(len, 0, LongestCode) && |len| <= |perm| &&
    forall k {:trigger Placed(perm, len, k)} :: 0 <= k < |len| && (len[k] < n || (len[k] == n && k < i)) ==> Placed(perm, len, k)
  }

  ghost predicate Placed(perm: seq<int>, len: seq<int>, k: int)
    requires 0 <= k < |len| && len[k] >= 0
  {
    Place(len, k) < |perm| && perm[Place(len, k)] == k
  }

  /** Where symbol k stands in the order by length. */
  ghost function Place(len: seq<int>, k: int): nat
    requires 0 <= k < |len| && len[k] >= 0
  {
    Below(len, len[k]) + Count(len[..k], len[k])
  }

  lemma PlaceBound(len: seq<int>, k: int, m: nat)
    requires 0 <= k < |len| && Between(len, 0, m)
    ensures Place(len, k) < Below(len, len[k] + 1) <= |len|
  {
    CountNext(len, k, len[k]);
    CountMonotone(len, k + 1, |len|, len[k]);
    assert len[..|len|] == len;
    BelowMonotone(len, len[k] + 1, m + 1);
    BelowAll(len, m + 1);
  }

  lemma PlaceInjective(len: seq<int>, j: int, k: int, m: nat)
    requires 0 <= j < |len| && 0 <= k < |len| && Between(len, 0, m) && j != k
    ensures Place(len, j) != Place(len, k)
  {
    PlaceBound(len, j, m);
    PlaceBound(len, k, m);
    if len[j] < len[k] {
      BelowMonotone(len, len[j] + 1, len[k]);
    } else if len[k] < len[j] {
      BelowMonotone(len, len[k] + 1, len[j]);
    } else if j < k {
      CodesDistinct(len, j, k);
    } else {
      CodesDistinct(len, k, j);
    }
  }

  method PermuteLevel(perm: array<int>, length: seq<int>, n: nat, pp0: nat) returns (pp: nat)
    requires pp0 == Below(length, n) && Permuted(perm[..], length, n, 0)
    modifies perm
    ensures pp == Below(length, n + 1) && Permuted(perm[..], length, n + 1, 0)
  {
    pp := pp0;
    for j := 0 to |length|
      invariant pp == pp0 + Count(length[..j], n)
      invariant Permuted(perm[..], length, n, j)
    {
      CountNext(length, j, n);
      if length[j] == n {
        PlaceBound(length, j, LongestCode);
        PermuteStep(perm[..], length, j);
        perm[pp] := j;
        pp := pp + 1;
      }
    }
    assert length[..|length|] == length;
  }

  lemma PermuteStep(perm: seq<int>, len: seq<int>, j: int)
    requires 0 <= j < |len| && Permuted(perm, len, len[j], j) && Place(len, j) < |perm|
    ensures Permuted(perm[Place(len, j) := j], len, len[j], j + 1)
  {
    var perm' := perm[Place(len, j) := j];
    forall k | 0 <= k < |len| && (len[k] < len[j] || (len[k] == len[j] && k < j + 1)) ensures Placed(perm', len, k) {
      if k != j {
        assert Placed(perm, len, k);
        PlaceInjective(len, k, j, LongestCode);
      }
    }
  }

  method Permute(perm: array<int>, length: seq<int>, minLen: nat, maxLen: nat)
    requires |length| <= perm.Length && Between(length, minLen, maxLen) && maxLen <= LongestCode
    modifies perm
    ensures Permuted(perm[..], length, maxLen + 1, 0)
  {
    var pp := 0;
    FirstIsZero(length, minLen, minLen, maxLen);
    var i := minLen;
    while i <= maxLen
      invariant minLen <= i && (i <= maxLen + 1 || i == minLen) && pp == Below(length, i)
      invariant Permuted(perm[..], length, i, 0)
    {
      pp := PermuteLevel(perm, length, i, pp);
      i := i + 1;
    }
  }

  /** base[k] is the number of symbols with codes shorter than k. */
  method CountLengths(base: array<int>, length: seq<int>)
    requires base.Length == 23 && Between(length, 0, LongestCode)
    modifies base
    ensures forall k {:trigger base[k]} :: 0 <= k < 23 ==> base[k] == Below(length, k)
  {
    for i := 0 to 23
      invariant forall k {:trigger base[k]} :: 0 <= k < i ==> base[k] == 0
    {
      base[i] := 0;
    }
    for i := 0 to |length|
      invariant base[0] == 0
      invariant forall k {:trigger base[k]} :: 1 <= k < 23 ==> base[k] == Count(length[..i], k - 1)
    {
      forall x | 0 <= x < 22
        ensures Count(length[..i + 1], x) == Count(length[..i], x) + (if length[i] == x then 1 else 0)
      {
        CountNext(length, i, x);
      }
      base[length[i] + 1] := base[length[i] + 1] + 1;
    }
    assert length[..|length|] == length;
    for i := 1 to 23
      invariant forall k {:trigger base[k]} :: 0 <= k < i ==> base[k] == Below(length, k)
      invariant forall k {:trigger base[k]} :: i <= k < 23 ==> base[k] == Count(length, k - 1)
    {
      base[i] := base[i] + base[i - 1];
    }
  }

  /** limit[k] is the last code of length k. */
  method SetLimits(limit: array<int>, base: array<int>, length: seq<int>, minLen: nat, maxLen: nat)
    requires limit.Length == 23 && base.Length == 23 && limit != base
    requires Between(length, minLen, maxLen) && maxLen <= LongestCode
    requires forall k {:trigger base[k]} :: 0 <= k < 23 ==> base[k] == Below(length, k)
    modifies limit
    ensures forall k {:trigger limit[k]} :: minLen <= k <= maxLen ==> limit[k] == Past(length, k) - 1
    ensures forall k {:trigger limit[k]} :: maxLen < k < 23 && minLen <= k ==> limit[k] == 0
  {
    for i := 0 to 23
      invariant forall k {:trigger limit[k]} :: 0 <= k < i ==> limit[k] == 0
    {
      limit[i] := 0;
    }
    var vec := 0;
    FirstIsZero(length, minLen, minLen, maxLen);
    var i := minLen;
    while i <= maxLen
      invariant minLen <= i && (i <= maxLen + 1 || i == minLen) && vec == First(length, i)
      invariant forall k {:trigger limit[k]} :: minLen <= k < i ==> limit[k] == Past(length, k) - 1
      invariant forall k {:trigger limit[k]} :: i <= k < 23 ==> limit[k] == 0
    {
      vec := vec + (base[i + 1] - base[i]);
      limit[i] := vec - 1;
      vec := vec * 2;
      i := i + 1;
    }
  }

  method SetBases(limit: array<int>, base: array<int>, length: seq<int>, minLen: nat, maxLen: nat)
    requires limit.Length == 23 && base.Length == 23 && limit != base
    requires Between(length, minLen, maxLen) && maxLen <= LongestCode
    requires forall k {:trigger base[k]} :: 0 <= k < 23 ==> base[k] == Below(length, k)
    requires forall k {:trigger limit[k]} :: minLen <= k <= maxLen ==> limit[k] == Past(length, k) - 1
    modifies base
    ensures forall k {:trigger base[k]} :: minLen <= k <= maxLen ==> base[k] == First(length, k) - Below(length, k)
  {
    FirstIsZero(length, minLen, minLen, maxLen);
    var i := minLen + 1;
    while i <= maxLen
      invariant minLen + 1 <= i && (i <= maxLen + 1 || i == minLen + 1)
      invariant forall k {:trigger base[k]} :: minLen <= k < i && k <= maxLen ==> base[k] == First(length, k) - Below(length, k)
      invariant forall k {:trigger base[k]} :: i <= k < 23 ==> base[k] == Below(length, k)
    {
      base[i] := (limit[i - 1] + 1) * 2 - base[i];
      i := i + 1;
    }
  }

  /** Either the codes of length n are described, or no code is that long. */
  ghost predicate Entry(t: Table, len: seq<int>, n: nat) {
    && n < |t.limit| && n < |t.base|
    && ((t.limit[n] == Past(len, n) - 1 && t.base[n] == First(len, n) - Below(len, n))
        || (t.limit[n] == 0 && Between(len, 0, n - 1)))
  }

  /** The table decodes the code with these lengths. */
  ghost predicate Decodes(t: Table, len: seq<int>) {
    && |len| <= 258 && 1 <= t.minLen <= LongestCode && Between(len, t.minLen, LongestCode) && Count(len, t.minLen) > 0
    && |t.limit| > LongestCode && |t.base| > LongestCode
    && (forall n :: t.minLen <= n <= LongestCode ==> Entry(t, len, n))
    && Permuted(t.perm, len, LongestCode + 1, 0)
  }

  /** BZ2_hbCreateDecodeTables. */
  method CreateDecodeTables(limit: array<int>, base: array<int>, perm: array<int>, length: seq<int>,
                            minLen: nat, maxLen: nat)
    requires limit.Length == 23 && base.Length == 23 && perm.Length == 258
    requires limit != base && limit != perm && base != perm
    requires 1 <= minLen <= maxLen <= LongestCode && |length| <= 258
    requires Between(length, minLen, maxLen) && Count(length, minLen) > 0
    modifies limit, base, perm
    ensures Decodes(Table(minLen, limit[..], base[..], perm[..]), length)
  {
    Permute(perm, length, minLen, maxLen);
    CountLengths(base, length);
    SetLimits(limit, base, length, minLen, maxLen);
    SetBases(limit, base, length, minLen, maxLen);
    ghost var t := Table(minLen, limit[..], base[..], perm[..]);
    forall n | minLen <= n <= LongestCode ensures Entry(t, length, n) {
    }
  }

  // ---- Decoding one symbol ----

  /** The tables find the symbol of length n with code v. */
  lemma FoundSymbol(t: Table, len: seq<int>, v: nat, n: nat)
    requires Decodes(t, len) && t.minLen <= n <= LongestCode
    requires First(len, n) <= v <= t.limit[n] && (n > t.minLen ==> v > 0)
    ensures 0 <= v - t.base[n] < |len| <= |t.perm|
    ensures var k := t.perm[v - t.base[n]]; 0 <= k < |len| && len[k] == n && Code(len, k) == v
  {
    assert Entry(t, len, n);
    if n == t.minLen && Between(len, 0, n - 1) { Absent(len, n, 0, n - 1); }
    var k := SymbolWith(len, v, n);
    assert Placed(t.perm, len, k);
  }

  lemma SymbolWith(len: seq<int>, v: nat, n: nat) returns (k: int)
    requires Between(len, 0, LongestCode) && First(len, n) <= v < Past(len, n)
    ensures 0 <= k < |len| && len[k] == n && Code(len, k) == v
    ensures Place(len, k) == v - First(len, n) + Below(len, n) < |len|
  {
    k := Nth(len, n, v - First(len, n));
    PlaceBound(len, k, LongestCode);
  }

  lemma {:induction false} PastPositive(len: seq<int>, m: nat, n: nat)
    requires Count(len, m) > 0 && m <= n
    ensures Past(len, n) > 0
  {
    if m < n { PastPositive(len, m, n - 1); }
  }

  /** A number past the codes of length n is the code of no symbol that long. */
  lemma PastSymbols(t: Table, len: seq<int>, v: nat, n: nat)
    requires Decodes(t, len) && t.minLen <= n <= LongestCode && First(len, n) <= v && t.limit[n] < v
    ensures Past(len, n) <= v && v > 0
    ensures forall i :: 0 <= i < |len| && len[i] == n ==> Code(len, i) != v
  {
    assert Entry(t, len, n);
    PastPositive(len, t.minLen, n);
    if Between(len, 0, n - 1) { Absent(len, n, 0, n - 1); }
    forall i | 0 <= i < |len| && len[i] == n ensures Code(len, i) != v {
      CodeRange(len, i);
    }
  }

  /** The n bits read so far are past every code they could have ended. */
  ghost predicate Reading(len: seq<int>, minLen: nat, z: seq<bool>, n: nat, v: nat) {
    && minLen <= n <= |z| && v == Value(z[..n]) && First(len, n) <= v && (n > minLen ==> v > 0)
    && forall i {:trigger Matches(len, i, z)} :: 0 <= i < |len| && 0 <= len[i] < n ==> !Matches(len, i, z)
  }

  lemma ReadingStart(t: Table, len: seq<int>, z: seq<bool>)
    requires Decodes(t, len) && t.minLen <= |z|
    ensures Reading(len, t.minLen, z, t.minLen, Value(z[..t.minLen]))
  {
    FirstIsZero(len, t.minLen, t.minLen, LongestCode);
  }

  lemma ReadingMore(t: Table, len: seq<int>, z: seq<bool>, n: nat, v: nat)
    requires Decodes(t, len) && Reading(len, t.minLen, z, n, v) && n <= LongestCode && t.limit[n] < v
    ensures n == |z| ==> NoMatch(len, z)
    ensures n < |z| ==> Reading(len, t.minLen, z, n + 1, 2 * v + (if z[n] then 1 else 0))
  {
    PastSymbols(t, len, v, n);
    if n < |z| { NextBit(z, n); }
  }

  ghost predicate NoMatch(len: seq<int>, z: seq<bool>) {
    forall i {:trigger Matches(len, i, z)} :: 0 <= i < |len| && len[i] >= 0 ==> !Matches(len, i, z)
  }

  lemma ReadingEnds(t: Table, len: seq<int>, z: seq<bool>, n: nat, v: nat)
    requires Decodes(t, len) && Reading(len, t.minLen, z, n, v) && n > LongestCode
    ensures NoMatch(len, z)
  {
  }

  /** Reads bits until they are a code. */
  method ReadCode(r: BitReader, t: Table, ghost len: seq<int>) returns (code: Fetch<nat>, zn: nat)
    requires r.Valid() && Decodes(t, len)
    modifies r
    ensures r.Valid() && |r.rest| <= |old(r.rest)|
    ensures code.Got? ==> zn <= LongestCode && Reading(len, t.minLen, old(r.rest), zn, code.value)
    ensures code.Got? ==> code.value <= t.limit[zn] && r.rest == old(r.rest)[zn..]
    ensures !code.Got? ==> NoMatch(len, old(r.rest))
    ensures code == NeedInput ==> |old(r.rest)| <= LongestCode
  {
    ghost var z := r.rest;
    zn := t.minLen;
    code := r.GetBits(zn);
    if code.NeedInput? {
      return;
    }
    ReadingStart(t, len, z);
    while zn <= LongestCode && code.value > t.limit[zn]
      invariant r.Valid() && t.minLen <= zn <= LongestCode + 1 && code.Got?
      invariant Reading(len, t.minLen, z, zn, code.value) && r.rest == z[zn..]
      decreases LongestCode + 1 - zn
    {
      ReadingMore(t, len, z, zn, code.value);
      var zj := r.GetBit();
      if zj.NeedInput? {
        code := NeedInput;
        return;
      }
      zn := zn + 1;
      code := Got(2 * code.value + zj.value);
    }
    if zn > LongestCode {
      ReadingEnds(t, len, z, zn, code.value);
      code := DataError;
    }
  }

  /** The decoding loop of GET_MTF_VAL: gives the symbol whose code comes next and takes just
      that code, or fails exactly when no code comes next. */
  method NextSymbol(r: BitReader, t: Table, ghost len: seq<int>) returns (sym: Fetch<nat>)
    requires r.Valid() && Decodes(t, len)
    modifies r
    ensures r.Valid() && |r.rest| <= |old(r.rest)|
    ensures sym.Got? ==> sym.value < |len| && Matches(len, sym.value, old(r.rest)) && r.rest == old(r.rest)[len[sym.value]..]
    ensures !sym.Got? ==> NoMatch(len, old(r.rest))
    ensures sym == NeedInput ==> |old(r.rest)| <= LongestCode
  {
    var code, zn := ReadCode(r, t, len);
    if !code.Got? {
      return code;
    }
    FoundSymbol(t, len, code.value, zn);
    var index := code.value - t.base[zn];
    if index < 0 || index >= 258 {
      assert false;
    }
    sym := Got(t.perm[index]);
  }
}
