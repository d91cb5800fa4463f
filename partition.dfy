/**
 * The partition arithmetic of `MPI.split` (mpiutils/mpiclass.py:39-49):
 * an index range [0, length) is cut into `size` contiguous half-open
 * ranges, rank i owning [starts[i], ends[i]).
 *
 * Every rank receives `base` elements and the ranks below `extra` one
 * more; the boundaries are the cumulative sums of these shares with a
 * leading 0. `split` as written picks `extra` one too small whenever
 * `size` does not divide `length` (see ExtraRanks); the intended choice
 * is kept beside it as IntendedStarts/IntendedEnds.
 */
module Partition {

  function Min(a: nat, b: nat): nat {
    if a <= b then a else b
  }

  /** Number of elements owned by rank i. */
  function Share(base: nat, extra: nat, i: nat): nat {
    if i < extra then base + 1 else base
  }

  /** Where rank i's range starts: the sum of the shares of ranks 0..i-1. */
  function Offset(base: nat, extra: nat, i: nat): nat {
    if i == 0 then 0 else Offset(base, extra, i - 1) + Share(base, extra, i - 1)
  }

  /** The size+1 boundaries b[0] .. b[size] produced by the cumulative sum. */
  function Bounds(base: nat, extra: nat, size: nat): seq<nat> {
    seq(size + 1, i requires 0 <= i < size + 1 => Offset(base, extra, i))
  }

  /** Sum of a sequence of counts. */
  function Sum(s: seq<nat>): nat {
    if s == [] then 0 else Sum(s[..|s| - 1]) + s[|s| - 1]
  }

  /** Rank i's range [starts[i], ends[i]) holds x. */
  predicate InRange(starts: seq<nat>, ends: seq<nat>, i: int, x: int) {
    0 <= i < |starts| && i < |ends| && starts[i] <= x < ends[i]
  }

  /** Some rank's range holds x. */
  predicate Covered(starts: seq<nat>, ends: seq<nat>, x: int) {
    exists i :: 0 <= i < |starts| && InRange(starts, ends, i, x)
  }

  // ---------------------------------------------------------------------
  // `split` as written

  /** `remainder` of mpiclass.py:44, with line 41 read as integer floor division. */
  function Remainder(length: nat, size: nat): (r: nat)
    requires size >= 1
    ensures r == length % size
  {
    length - (length / size) * size
  }

  /**
   * Ranks that get one extra element: `splits[1:remainder] += 1` touches
   * the entries 1 .. remainder-1 of the size+1 count array (none when
   * remainder <= 1), and entry j is the count of rank j-1.
   */
  function ExtraRanks(length: nat, size: nat): (k: nat)
    requires size >= 1
    ensures k < size
  {
    if Remainder(length, size) == 0 then 0 else Remainder(length, size) - 1
  }

  function SplitBounds(length: nat, size: nat): seq<nat>
    requires size >= 1
  {
    Bounds(length / size, ExtraRanks(length, size), size)
  }

  /** `split1` of mpiclass.py:47: every boundary but the last. */
  function Starts(length: nat, size: nat): seq<nat>
    requires size >= 1
  {
    SplitBounds(length, size)[..size]
  }

  /** `split2` of mpiclass.py:48: every boundary but the first. */
  function Ends(length: nat, size: nat): seq<nat>
    requires size >= 1
  {
    SplitBounds(length, size)[1..]
  }

  // ---------------------------------------------------------------------
  // `split` as intended: the first `remainder` ranks get the extra element

  function IntendedBounds(length: nat, size: nat): seq<nat>
    requires size >= 1
  {
    Bounds(length / size, Remainder(length, size), size)
  }

  function IntendedStarts(length: nat, size: nat): seq<nat>
    requires size >= 1
  {
    IntendedBounds(length, size)[..size]
  }

  function IntendedEnds(length: nat, size: nat): seq<nat>
    requires size >= 1
  {
    IntendedBounds(length, size)[1..]
  }

  // ---------------------------------------------------------------------
  // Cumulative sums of shares

  lemma {:induction false} OffsetClosedForm(base: nat, extra: nat, i: nat)
    ensures Offset(base, extra, i) == base * i + Min(i, extra)
  {
    if i > 0 {
      OffsetClosedForm(base, extra, i - 1);
      assert base * i == base * (i - 1) + base;
    }
  }

  lemma {:induction false} OffsetMonotone(base: nat, extra: nat, i: nat, j: nat)
    requires i <= j
    ensures Offset(base, extra, i) <= Offset(base, extra, j)
  {
    if i < j {
      OffsetMonotone(base, extra, i, j - 1);
    }
  }

  /**
   * The cumulative sum of the count array [0, share of rank 0, ...,
   * share of rank size-1] is the array of boundaries.
   */
  lemma {:induction false} OffsetIsSum(base: nat, extra: nat, counts: seq<nat>, j: nat)
    requires 1 <= |counts| && j < |counts| && counts[0] == 0
    requires forall i :: 1 <= i < |counts| ==> counts[i] == Share(base, extra, i - 1)
    ensures Sum(counts[..j + 1]) == Offset(base, extra, j)
  {
    if j == 0 {
      assert counts[..1][..0] == [];
    } else {
      OffsetIsSum(base, extra, counts, j - 1);
      assert counts[..j + 1][..j] == counts[..j];
    }
  }

  /** Every x below the last boundary lies in some rank's range. */
  lemma {:induction false} OffsetOwner(base: nat, extra: nat, n: nat, x: nat)
    requires x < Offset(base, extra, n)
    ensures exists i :: 0 <= i < n && Offset(base, extra, i) <= x < Offset(base, extra, i + 1)
  {
    if x < Offset(base, extra, n - 1) {
      OffsetOwner(base, extra, n - 1, x);
    } else {
      assert Offset(base, extra, n - 1) <= x < Offset(base, extra, n - 1 + 1);
    }
  }

  /** No x lies in the ranges of two different ranks. */
  lemma {:induction false} OffsetOwnerUnique(base: nat, extra: nat, i: nat, k: nat, x: int)
    requires Offset(base, extra, i) <= x < Offset(base, extra, i + 1)
    requires Offset(base, extra, k) <= x < Offset(base, extra, k + 1)
    ensures i == k
  {
    if i < k {
      OffsetMonotone(base, extra, i + 1, k);
    } else if k < i {
      OffsetMonotone(base, extra, k + 1, i);
    }
  }

  /**
   * The ranges cut by Bounds start at 0, touch their neighbours and hold
   * Share elements each.
   */
  lemma BoundsShape(base: nat, extra: nat, size: nat)
    requires size >= 1
    ensures var b := Bounds(base, extra, size);
      var s, e := b[..size], b[1..];
      |s| == size && |e| == size && s[0] == 0 && e[size - 1] == Offset(base, extra, size) &&
      (forall i :: 0 <= i < size - 1 ==> e[i] == s[i + 1]) &&
      (forall i :: 0 <= i < size ==> e[i] - s[i] == Share(base, extra, i))
  {
  }

  /** The ranges cut by Bounds cover exactly [0, b[size]). */
  lemma BoundsCover(base: nat, extra: nat, size: nat)
    requires size >= 1
    ensures var b := Bounds(base, extra, size);
      forall x :: Covered(b[..size], b[1..], x) <==> 0 <= x < Offset(base, extra, size)
  {
    var b := Bounds(base, extra, size);
    var s, e := b[..size], b[1..];
    forall x | 0 <= x < Offset(base, extra, size)
      ensures Covered(s, e, x)
    {
      OffsetOwner(base, extra, size, x);
      var i :| 0 <= i < size && Offset(base, extra, i) <= x < Offset(base, extra, i + 1);
      assert InRange(s, e, i, x);
    }
    forall x | Covered(s, e, x)
      ensures 0 <= x < Offset(base, extra, size)
    {
      var i :| 0 <= i < |s| && InRange(s, e, i, x);
      OffsetMonotone(base, extra, i + 1, size);
    }
  }

  /** No point lies in the ranges of two different ranks. */
  lemma BoundsDisjoint(base: nat, extra: nat, size: nat)
    requires size >= 1
    ensures var b := Bounds(base, extra, size);
      forall i, k, x :: InRange(b[..size], b[1..], i, x) && InRange(b[..size], b[1..], k, x) ==> i == k
  {
    var b := Bounds(base, extra, size);
    var s, e := b[..size], b[1..];
    forall i, k, x | InRange(s, e, i, x) && InRange(s, e, k, x)
      ensures i == k
    {
      OffsetOwnerUnique(base, extra, i, k, x);
    }
  }

  /** All three together. */
  lemma BoundsPartition(base: nat, extra: nat, size: nat)
    requires size >= 1
    ensures var b := Bounds(base, extra, size);
      var s, e := b[..size], b[1..];
      |s| == size && |e| == size && s[0] == 0 && e[size - 1] == Offset(base, extra, size) &&
      (forall i :: 0 <= i < size - 1 ==> e[i] == s[i + 1]) &&
      (forall i :: 0 <= i < size ==> e[i] - s[i] == Share(base, extra, i)) &&
      (forall x :: Covered(s, e, x) <==> 0 <= x < Offset(base, extra, size)) &&
      (forall i, k, x :: InRange(s, e, i, x) && InRange(s, e, k, x) ==> i == k)
  {
    BoundsShape(base, extra, size);
    BoundsCover(base, extra, size);
    BoundsDisjoint(base, extra, size);
  }

  /** The last boundary of n ranks with base and extra is n*base + extra when extra <= n. */
  lemma LastOffset(base: nat, extra: nat, n: nat)
    requires extra <= n
    ensures Offset(base, extra, n) == base * n + extra
  {
    OffsetClosedForm(base, extra, n);
  }

  // ---------------------------------------------------------------------
  // Properties of `split` as written

  /**
   * Shape of the result: `size` starts and `size` ends, the first start 0,
   * neighbouring ranges touching; rank i holds base+1 elements when
   * i < ExtraRanks and base otherwise, so lengths never grow with rank.
   */
  lemma SplitShape(length: nat, size: nat)
    requires size >= 1
    ensures var s, e := Starts(length, size), Ends(length, size);
      |s| == size && |e| == size && s[0] == 0 &&
      (forall i :: 0 <= i < size - 1 ==> e[i] == s[i + 1]) &&
      (forall i :: 0 <= i < size ==>
        e[i] - s[i] == if i < ExtraRanks(length, size) then length / size + 1 else length / size) &&
      (forall i, j :: 0 <= i <= j < size ==> e[j] - s[j] <= e[i] - s[i])
  {
    BoundsPartition(length / size, ExtraRanks(length, size), size);
  }

  /**
   * When size divides length every rank gets exactly length/size elements
   * and the ranges cover [0, length), each index by exactly one rank.
   */
  lemma SplitDivisible(length: nat, size: nat)
    requires size >= 1 && length % size == 0
    ensures var s, e := Starts(length, size), Ends(length, size);
      (forall i :: 0 <= i < size ==> e[i] - s[i] == length / size) &&
      e[size - 1] == length &&
      (forall x :: Covered(s, e, x) <==> 0 <= x < length) &&
      (forall i, k, x :: InRange(s, e, i, x) && InRange(s, e, k, x) ==> i == k)
  {
    var base, extra := length / size, ExtraRanks(length, size);
    assert extra == 0;
    BoundsPartition(base, extra, size);
    LastOffset(base, extra, size);
  }

  /**
   * With r = length % size > 0, only ranks 0 .. r-2 get the extra element,
   * the last range ends at length-1, and index length-1 belongs to no rank.
   */
  lemma SplitWithRemainder(length: nat, size: nat)
    requires size >= 1 && length % size > 0
    ensures var s, e := Starts(length, size), Ends(length, size);
      (forall i :: 0 <= i < size ==>
        e[i] - s[i] == if i < length % size - 1 then length / size + 1 else length / size) &&
      e[size - 1] == length - 1 &&
      (forall x :: Covered(s, e, x) <==> 0 <= x < length - 1) &&
      !Covered(s, e, length - 1)
  {
    var base, extra := length / size, ExtraRanks(length, size);
    assert extra == length % size - 1;
    BoundsPartition(base, extra, size);
    LastOffset(base, extra, size);
  }

  /** 10 indices over 3 ranks: ranges [0,3), [3,6), [6,9). */
  lemma SplitTenOverThree()
    ensures Starts(10, 3) == [0, 3, 6] && Ends(10, 3) == [3, 6, 9]
  {
    OffsetClosedForm(3, 0, 1);
    OffsetClosedForm(3, 0, 2);
    OffsetClosedForm(3, 0, 3);
  }

  // ---------------------------------------------------------------------
  // Properties of `split` as intended

  /**
   * The intended split is a balanced partition of [0, length) for every
   * length and size: the first length % size ranks get one element more,
   * and every index belongs to exactly one rank.
   */
  lemma IntendedSplitPartitions(length: nat, size: nat)
    requires size >= 1
    ensures var s, e := IntendedStarts(length, size), IntendedEnds(length, size);
      |s| == size && |e| == size && s[0] == 0 && e[size - 1] == length &&
      (forall i :: 0 <= i < size - 1 ==> e[i] == s[i + 1]) &&
      (forall i :: 0 <= i < size ==>
        e[i] - s[i] == if i < length % size then length / size + 1 else length / size) &&
      (forall x :: Covered(s, e, x) <==> 0 <= x < length) &&
      (forall i, k, x :: InRange(s, e, i, x) && InRange(s, e, k, x) ==> i == k)
  {
    var base, extra := length / size, Remainder(length, size);
    BoundsPartition(base, extra, size);
    LastOffset(base, extra, size);
  }

  /** 10 indices over 3 ranks as intended: ranges [0,4), [4,7), [7,10). */
  lemma IntendedTenOverThree()
    ensures IntendedStarts(10, 3) == [0, 4, 7] && IntendedEnds(10, 3) == [4, 7, 10]
  {
    OffsetClosedForm(3, 1, 1);
    OffsetClosedForm(3, 1, 2);
    OffsetClosedForm(3, 1, 3);
  }
}
