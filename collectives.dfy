/**
 * The MPI collectives the library uses, run sequentially over the values of
 * the ranks of one communicator, listed in rank order.
 *
 *   MPI_Allreduce(SUM)  -> Sum
 *   MPI_Exscan(SUM)     -> ExscanAt: the sum over the lower ranks, 0 on rank 0
 *   MPI_Allgatherv      -> Concat of the per-rank pieces
 *
 * `ExclusiveScan` is the whole vector of exclusive prefix sums; it is what
 * `partial_sum` (src/elba_seq_store.c) fills in and the displacement vector
 * every gather and scatter is given.
 */
module Collectives {

  /** Sum of a sequence of counts. */
  function Sum(xs: seq<nat>): nat
  {
    if |xs| == 0 then 0 else Sum(xs[..|xs| - 1]) + xs[|xs| - 1]
  }

  lemma {:induction false} SumAppend(xs: seq<nat>, ys: seq<nat>)
    ensures Sum(xs + ys) == Sum(xs) + Sum(ys)
    decreases |ys|
  {
    if |ys| > 0 {
      var ys' := ys[..|ys| - 1];
      assert (xs + ys)[..|xs + ys| - 1] == xs + ys';
      SumAppend(xs, ys');
    } else {
      assert xs + ys == xs;
    }
  }

  /** Sums of prefixes grow one element at a time. */
  lemma SumPrefixStep(xs: seq<nat>, k: nat)
    requires k < |xs|
    ensures Sum(xs[..k + 1]) == Sum(xs[..k]) + xs[k]
  {
    assert xs[..k + 1][..k] == xs[..k];
  }

  /** Each element is bounded by the sum. */
  lemma {:induction false} SumBoundsElement(xs: seq<nat>, k: nat)
    requires k < |xs|
    ensures Sum(xs[..k]) + xs[k] <= Sum(xs)
    decreases |xs|
  {
    if k < |xs| - 1 {
      assert xs[..|xs| - 1][..k] == xs[..k];
      SumBoundsElement(xs[..|xs| - 1], k);
    } else {
      assert xs[..k] == xs[..|xs| - 1];
    }
  }

  /** MPI_Exscan as this library uses it: rank 0 gets 0, rank r the sum over ranks below r. */
  function ExscanAt(xs: seq<nat>, rank: nat): (r: nat)
    requires rank < |xs|
    ensures rank == 0 ==> r == 0
    ensures r + xs[rank] <= Sum(xs)
  {
    SumBoundsElement(xs, rank);
    if rank == 0 then 0 else Sum(xs[..rank])
  }

  /** The exclusive prefix sums, accumulated from a running total. */
  function ScanFrom(xs: seq<nat>, acc: nat): (r: seq<nat>)
    ensures |r| == |xs|
    ensures forall k :: 0 <= k < |xs| ==> r[k] == acc + Sum(xs[..k])
    decreases |xs|
  {
    if |xs| == 0 then []
    else
      var rest := ScanFrom(xs[1..], acc + xs[0]);
      assert forall k :: 1 <= k <= |xs| ==> Sum(xs[..k]) == xs[0] + Sum(xs[1..][..k - 1]) by {
        forall k | 1 <= k <= |xs|
          ensures Sum(xs[..k]) == xs[0] + Sum(xs[1..][..k - 1])
        {
          assert xs[..k] == [xs[0]] + xs[1..][..k - 1];
          SumAppend([xs[0]], xs[1..][..k - 1]);
          assert [xs[0]][..0] == [];
        }
      }
      [acc] + rest
  }

  /** The exclusive prefix sums: displacement k is the sum of the counts below k. */
  function ExclusiveScan(xs: seq<nat>): (r: seq<nat>)
    ensures |r| == |xs|
    ensures forall k :: 0 <= k < |xs| ==> r[k] == Sum(xs[..k])
  {
    ScanFrom(xs, 0)
  }

  /** `partial_sum`'s recurrence: displs[0] = 0 and displs[i+1] = displs[i] + counts[i]. */
  lemma ExclusiveScanStep(xs: seq<nat>, k: nat)
    requires k < |xs|
    ensures ExclusiveScan(xs)[0] == 0
    ensures k + 1 < |xs| ==> ExclusiveScan(xs)[k + 1] == ExclusiveScan(xs)[k] + xs[k]
  {
    if k + 1 < |xs| {
      SumPrefixStep(xs, k);
    }
  }

  /** Counts that are the steps between consecutive values of f add up to f's rise. */
  lemma {:induction false} Telescope(cs: seq<nat>, f: seq<nat>, r: nat)
    requires |f| == |cs| + 1 && f[0] == 0 && r <= |cs|
    requires forall k {:trigger cs[k]} :: 0 <= k < |cs| ==> f[k] + cs[k] == f[k + 1]
    ensures Sum(cs[..r]) == f[r]
    decreases r
  {
    if r > 0 {
      Telescope(cs, f, r - 1);
      SumPrefixStep(cs, r - 1);
      assert f[r - 1] + cs[r - 1] == f[r];
    }
  }

  /** A vector that starts at 0 and steps by xs is the exclusive scan of xs. */
  lemma ScanOfSteps(xs: seq<nat>, ds: seq<nat>)
    requires |ds| == |xs| && (|xs| > 0 ==> ds[0] == 0)
    requires forall k {:trigger xs[k]} :: 0 <= k < |xs| - 1 ==> ds[k] + xs[k] == ds[k + 1]
    ensures ds == ExclusiveScan(xs)
  {
    if |xs| > 0 {
      var f := ds + [ds[|xs| - 1] + xs[|xs| - 1]];
      forall k {:trigger xs[k]} | 0 <= k < |xs|
        ensures f[k] + xs[k] == f[k + 1]
      {
      }
      forall r | 0 <= r < |xs|
        ensures ds[r] == ExclusiveScan(xs)[r]
      {
        Telescope(xs, f, r);
      }
    }
  }

  /** Lengths of the per-rank pieces: the receive counts of a gather. */
  function Lengths<T>(parts: seq<seq<T>>): (r: seq<nat>)
    ensures |r| == |parts|
    ensures forall k :: 0 <= k < |parts| ==> r[k] == |parts[k]|
  {
    seq(|parts|, k requires 0 <= k < |parts| => |parts[k]|)
  }

  /** MPI_Allgatherv: the pieces placed one after another in rank order. */
  function Concat<T>(parts: seq<seq<T>>): seq<T>
  {
    if |parts| == 0 then [] else Concat(parts[..|parts| - 1]) + parts[|parts| - 1]
  }

  lemma {:induction false} ConcatLength<T>(parts: seq<seq<T>>)
    ensures |Concat(parts)| == Sum(Lengths(parts))
    decreases |parts|
  {
    if |parts| > 0 {
      var init := parts[..|parts| - 1];
      assert Lengths(parts)[..|parts| - 1] == Lengths(init);
      ConcatLength(init);
    }
  }

  /**
   * The gather places piece k at its displacement: element i of rank k's
   * piece is found at ExclusiveScan(Lengths(parts))[k] + i.
   */
  lemma {:induction false} ConcatIndex<T>(parts: seq<seq<T>>, k: nat, i: nat)
    requires k < |parts| && i < |parts[k]|
    ensures Sum(Lengths(parts)[..k]) + i < |Concat(parts)|
    ensures Concat(parts)[Sum(Lengths(parts)[..k]) + i] == parts[k][i]
    decreases |parts|
  {
    var init := parts[..|parts| - 1];
    assert Lengths(parts)[..|parts| - 1] == Lengths(init);
    ConcatLength(init);
    ConcatLength(parts);
    if k < |parts| - 1 {
      assert Lengths(parts)[..k] == Lengths(init)[..k];
      ConcatIndex(init, k, i);
    } else {
      assert Lengths(parts)[..k] == Lengths(init);
    }
  }

  /** Concatenation distributes over appending pieces. */
  lemma {:induction false} ConcatAppend<T>(xs: seq<seq<T>>, ys: seq<seq<T>>)
    ensures Concat(xs + ys) == Concat(xs) + Concat(ys)
    decreases |ys|
  {
    if |ys| > 0 {
      var ys' := ys[..|ys| - 1];
      assert (xs + ys)[..|xs + ys| - 1] == xs + ys';
      ConcatAppend(xs, ys');
    } else {
      assert xs + ys == xs;
    }
  }

  /**
   * Consecutive slices of one sequence, gathered in order, give back the
   * prefix they cover: MPI_Scatterv followed by MPI_Gatherv with the same
   * displacements is the identity on that prefix.
   */
  lemma ConcatSlices<T>(xs: seq<T>, parts: seq<seq<T>>, bounds: seq<nat>)
    requires |bounds| == |parts| + 1 && bounds[0] == 0 && bounds[|parts|] <= |xs|
    requires forall i, j :: 0 <= i <= j < |bounds| ==> bounds[i] <= bounds[j]
    requires forall r {:trigger parts[r]} :: 0 <= r < |parts| ==> parts[r] == xs[bounds[r] .. bounds[r + 1]]
    ensures Concat(parts) == xs[..bounds[|parts|]]
  {
    ConcatSlicesUpTo(xs, parts, bounds, |parts|);
    assert parts[..|parts|] == parts;
  }

  lemma {:induction false} ConcatSlicesUpTo<T>(xs: seq<T>, parts: seq<seq<T>>, bounds: seq<nat>, k: nat)
    requires |bounds| == |parts| + 1 && bounds[0] == 0 && bounds[|parts|] <= |xs| && k <= |parts|
    requires forall i, j :: 0 <= i <= j < |bounds| ==> bounds[i] <= bounds[j]
    requires forall r {:trigger parts[r]} :: 0 <= r < |parts| ==> parts[r] == xs[bounds[r] .. bounds[r + 1]]
    ensures Concat(parts[..k]) == xs[..bounds[k]]
    decreases k
  {
    if k > 0 {
      var lo, hi := bounds[k - 1], bounds[k];
      assert lo <= hi <= bounds[|parts|];
      assert parts[k - 1] == xs[lo .. hi];
      ConcatSlicesUpTo(xs, parts, bounds, k - 1);
      assert parts[..k][..k - 1] == parts[..k - 1];
      assert xs[..hi] == xs[..lo] + xs[lo .. hi];
    }
  }

  /** Every value moved up by d: displacements rebased past what lies before them. */
  function Shift(xs: seq<nat>, d: nat): (r: seq<nat>)
    ensures |r| == |xs|
    ensures forall k :: 0 <= k < |xs| ==> r[k] == xs[k] + d
  {
    seq(|xs|, k requires 0 <= k < |xs| => xs[k] + d)
  }

  /** The scan of two runs of counts: the first run's scan, then the second's moved past the first's sum. */
  lemma ScanAppend(xs: seq<nat>, ys: seq<nat>)
    ensures ExclusiveScan(xs + ys) == ExclusiveScan(xs) + Shift(ExclusiveScan(ys), Sum(xs))
  {
    var l, r := ExclusiveScan(xs + ys), ExclusiveScan(xs) + Shift(ExclusiveScan(ys), Sum(xs));
    forall k | 0 <= k < |xs + ys|
      ensures l[k] == r[k]
    {
      if k < |xs| {
        assert (xs + ys)[..k] == xs[..k];
      } else {
        assert (xs + ys)[..k] == xs + ys[..k - |xs|];
        SumAppend(xs, ys[..k - |xs|]);
      }
    }
  }
}
