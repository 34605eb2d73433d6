/** Cyclic rotations of a block and their lexicographic order.

    The order is defined on the rotations themselves. Proofs compare rotations through Key,
    the first m cyclic characters read as a base-256 number, which turns the order on
    strings into the order on integers. */
module Rotations {
  import opened Sequences

  /** The character at cyclic position i. */
  function At(b: seq<Byte>, i: nat): Byte
    requires |b| > 0
  {
    if i < |b| then b[i] else At(b, i - |b|)
  }

  function Rotation(b: seq<Byte>, i: nat): (r: seq<Byte>)
    requires i < |b|
    ensures |r| == |b|
  {
    b[i..] + b[..i]
  }

  /** Weak lexicographic order on strings of equal length. */
  ghost predicate LexLe(s: seq<Byte>, t: seq<Byte>)
    requires |s| == |t|
  {
    s == t || exists k :: 0 <= k < |s| && s[..k] == t[..k] && s[k] < t[k]
  }

  /** ptr lists every rotation of b once, in weakly ascending order. */
  ghost predicate SortsRotations(b: seq<Byte>, ptr: seq<int>) {
    && |ptr| == |b| && IsPermutation(ptr)
    && forall i, j :: 0 <= i < j < |ptr| ==> LexLe(Rotation(b, ptr[i]), Rotation(b, ptr[j]))
  }

  /** The first m cyclic characters from position i, as a base-256 number. */
  ghost function Key(b: seq<Byte>, i: nat, m: nat): nat
    requires |b| > 0
  {
    if m == 0 then 0 else 256 * Key(b, i, m - 1) + At(b, i + m - 1)
  }

  lemma {:induction false} KeyShorter(b: seq<Byte>, i: nat, j: nat, m: nat, m': nat)
    requires |b| > 0 && m <= m'
    ensures Key(b, i, m) < Key(b, j, m) ==> Key(b, i, m') < Key(b, j, m')
    ensures Key(b, i, m') <= Key(b, j, m') ==> Key(b, i, m) <= Key(b, j, m)
    ensures Key(b, i, m') == Key(b, j, m') ==> Key(b, i, m) == Key(b, j, m)
    decreases m'
  {
    if m < m' { KeyShorter(b, i, j, m, m' - 1); }
  }

  /** Comparing h + m characters is comparing the first h, then the next m. */
  lemma {:induction false} KeySplit(b: seq<Byte>, i: nat, j: nat, h: nat, m: nat)
    requires |b| > 0
    ensures Key(b, i, h + m) < Key(b, j, h + m) <==>
              Key(b, i, h) < Key(b, j, h) ||
              (Key(b, i, h) == Key(b, j, h) && Key(b, i + h, m) < Key(b, j + h, m))
    ensures Key(b, i, h + m) == Key(b, j, h + m) <==>
              Key(b, i, h) == Key(b, j, h) && Key(b, i + h, m) == Key(b, j + h, m)
  {
    if m > 0 {
      KeySplit(b, i, j, h, m - 1);
      assert h + m - 1 == h + (m - 1);
    }
  }

  /** Positions are cyclic. */
  lemma {:induction false} KeyCyclic(b: seq<Byte>, i: nat, m: nat)
    requires |b| > 0
    ensures Key(b, i + |b|, m) == Key(b, i, m)
  {
    if m > 0 {
      KeyCyclic(b, i, m - 1);
      assert i + |b| + m - 1 - |b| == i + m - 1;
    }
  }

  /** Keys of n characters order positions as the rotations there are ordered. */
  lemma KeyOrdersRotations(b: seq<Byte>, i: nat, j: nat)
    requires i < |b| && j < |b|
    ensures Key(b, i, |b|) <= Key(b, j, |b|) <==> LexLe(Rotation(b, i), Rotation(b, j))
  {
    var s, t := Rotation(b, i), Rotation(b, j);
    KeyEqualPrefix(b, i, j, |b|);
    assert s[..|b|] == s && t[..|b|] == t;
    if Key(b, i, |b|) < Key(b, j, |b|) {
      var k := FirstDifference(b, i, j, |b|);
      assert s[..k] == t[..k] && s[k] < t[k];
    }
    if k :| 0 <= k < |b| && s[..k] == t[..k] && s[k] < t[k] {
      KeyEqualPrefix(b, i, j, k);
      RotationAt(b, i, k);
      RotationAt(b, j, k);
      assert Key(b, i, k + 1) < Key(b, j, k + 1);
      KeyShorter(b, i, j, k + 1, |b|);
    }
  }

  lemma RotationAt(b: seq<Byte>, i: nat, k: nat)
    requires i < |b| && k < |b|
    ensures Rotation(b, i)[k] == At(b, i + k)
  {
  }

  lemma {:induction false} KeyEqualPrefix(b: seq<Byte>, i: nat, j: nat, m: nat)
    requires i < |b| && j < |b| && m <= |b|
    ensures Key(b, i, m) == Key(b, j, m) <==> Rotation(b, i)[..m] == Rotation(b, j)[..m]
  {
    if m > 0 {
      var s, t := Rotation(b, i), Rotation(b, j);
      KeyEqualPrefix(b, i, j, m - 1);
      RotationAt(b, i, m - 1);
      RotationAt(b, j, m - 1);
      assert s[..m] == s[..m - 1] + [s[m - 1]] && t[..m] == t[..m - 1] + [t[m - 1]];
    }
  }

  lemma {:induction false} FirstDifference(b: seq<Byte>, i: nat, j: nat, m: nat) returns (k: nat)
    requires i < |b| && j < |b| && m <= |b|
    requires Key(b, i, m) < Key(b, j, m)
    ensures k < m
    ensures Rotation(b, i)[..k] == Rotation(b, j)[..k] && Rotation(b, i)[k] < Rotation(b, j)[k]
  {
    if Key(b, i, m - 1) < Key(b, j, m - 1) {
      k := FirstDifference(b, i, j, m - 1);
    } else {
      k := m - 1;
      KeyEqualPrefix(b, i, j, k);
      RotationAt(b, i, k);
      RotationAt(b, j, k);
    }
  }

  /** The same as SortsRotations, through keys. */
  ghost predicate SortedByKey(b: seq<Byte>, ptr: seq<int>, m: nat)
    requires |b| > 0
  {
    && InRange(ptr, |b|)
    && forall i, j :: 0 <= i < j < |ptr| ==> Key(b, ptr[i], m) <= Key(b, ptr[j], m)
  }

  lemma SortedByKeyIsSorted(b: seq<Byte>, ptr: seq<int>)
    requires |b| > 0 && |ptr| == |b| && IsPermutation(ptr)
    ensures SortedByKey(b, ptr, |b|) <==> SortsRotations(b, ptr)
  {
    forall i, j | 0 <= i < j < |ptr|
      ensures Key(b, ptr[i], |b|) <= Key(b, ptr[j], |b|) <==>
                LexLe(Rotation(b, ptr[i]), Rotation(b, ptr[j]))
    {
      KeyOrdersRotations(b, ptr[i], ptr[j]);
    }
  }
}
