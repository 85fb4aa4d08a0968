/**
 * The linear block partition used to hand out FASTA index records
 * (src/elba_faidx.c, fasta_index.c) and strings (mstring.c): ranks
 * 0 .. P-2 get N/P items each and rank P-1 gets what remains.
 */
module Partition {
  import opened Collectives

  /** The number of items rank r is sent. */
  function BlockCount(n: nat, p: nat, r: nat): (c: nat)
    requires r < p
    ensures r < p - 1 ==> c == n / p
    ensures r == p - 1 ==> c + (p - 1) * (n / p) == n
  {
    LowerBlocksFit(n, p);
    if r < p - 1 then n / p else n - (p - 1) * (n / p)
  }

  lemma LowerBlocksFit(n: nat, p: nat)
    requires p > 0
    ensures (p - 1) * (n / p) <= n
  {
    assert (p - 1) * (n / p) <= p * (n / p) <= n;
  }

  /** The send counts of every rank, in rank order. */
  function Counts(n: nat, p: nat): (cs: seq<nat>)
    ensures |cs| == p
    ensures forall r :: 0 <= r < p ==> cs[r] == BlockCount(n, p, r)
  {
    seq(p, r requires 0 <= r < p => BlockCount(n, p, r))
  }

  lemma {:induction false} SumOfEqual(cs: seq<nat>, c: nat)
    requires forall r :: 0 <= r < |cs| ==> cs[r] == c
    ensures Sum(cs) == |cs| * c
    decreases |cs|
  {
    if |cs| > 0 {
      SumOfEqual(cs[..|cs| - 1], c);
    }
  }

  /** Rank r's block starts after r full blocks of N/P items. */
  lemma DisplOfBlock(n: nat, p: nat, r: nat)
    requires r < p
    ensures Sum(Counts(n, p)[..r]) == r * (n / p)
  {
    SumOfEqual(Counts(n, p)[..r], n / p);
  }

  /**
   * The root's string plan as the loop of the scatter fills it: N/P for
   * every rank but the last, which takes the rest, and displacement k at
   * k * (N/P).
   */
  lemma PlanIsScan(cs: seq<nat>, ds: seq<nat>, n: nat, p: nat)
    requires p > 0 && |cs| == |ds| == p
    requires forall k :: 0 <= k < p - 1 ==> cs[k] == n / p
    requires cs[p - 1] + (p - 1) * (n / p) == n
    requires forall k :: 0 <= k < p ==> ds[k] == k * (n / p)
    ensures cs == Counts(n, p)
    ensures ds == ExclusiveScan(Counts(n, p))
  {
    forall k | 0 <= k < p
      ensures ds[k] == ExclusiveScan(Counts(n, p))[k]
    {
      DisplOfBlock(n, p, k);
    }
  }

  /**
   * The root's plan as the loops of the scatters fill it (`sstore_mpi_scatter`
   * and the legacy `fasta_index_read`): ranks 0 .. P-2 are sent N/P items,
   * rank P-1 the rest, each block starting where the one before it ends.
   */
  method Plan(n: nat, p: nat) returns (counts: array<nat>, displs: array<nat>)
    requires p > 0
    ensures fresh(counts) && fresh(displs)
    ensures counts[..] == Counts(n, p)
    ensures displs[..] == ExclusiveScan(Counts(n, p))
  {
    counts := new nat[p];
    displs := new nat[p];
    var q := n / p;
    displs[0] := 0;
    var i := 0;
    while i < p - 1
      invariant 0 <= i <= p - 1
      invariant forall k :: 0 <= k < i ==> counts[k] == q
      invariant forall k :: 0 <= k <= i ==> displs[k] == k * q
      invariant displs[i] == i * q
    {
      assert (i + 1) * q == i * q + q;
      counts[i] := q;
      displs[i + 1] := displs[i] + counts[i];
      i := i + 1;
    }
    LowerBlocksFit(n, p);
    counts[p - 1] := n - (p - 1) * q;
    PlanIsScan(counts[..], displs[..], n, p);
  }

  /** The counts cover every item exactly: they sum to N. */
  lemma CountsSum(n: nat, p: nat)
    requires p > 0
    ensures Sum(Counts(n, p)) == n
  {
    var cs := Counts(n, p);
    assert cs == cs[..p - 1] + [cs[p - 1]];
    SumAppend(cs[..p - 1], [cs[p - 1]]);
    assert [cs[p - 1]][..0] == [];
    DisplOfBlock(n, p, p - 1);
  }

  /** The slice of the global list that rank r receives. */
  function Block<T>(xs: seq<T>, p: nat, r: nat): (b: seq<T>)
    requires r < p
    ensures |b| == BlockCount(|xs|, p, r)
  {
    var n := |xs|;
    LowerBlocksFit(n, p);
    MulMonotone(r, p - 1, n / p);
    xs[r * (n / p) .. r * (n / p) + BlockCount(n, p, r)]
  }

  lemma MulMonotone(a: nat, b: nat, c: nat)
    requires a <= b
    ensures a * c <= b * c
  {
  }

  /** A block below the last one is the full N/P items from r*(N/P) on. */
  lemma LowerBlock<T>(xs: seq<T>, p: nat, r: nat)
    requires r < p - 1
    ensures r * (|xs| / p) <= (r + 1) * (|xs| / p) <= |xs|
    ensures Block(xs, p, r) == xs[r * (|xs| / p) .. (r + 1) * (|xs| / p)]
  {
    var q := |xs| / p;
    LowerBlocksFit(|xs|, p);
    MulMonotone(r + 1, p - 1, q);
    assert r * q + q == (r + 1) * q;
  }

  /** Rank r's block starts at its displacement in the exclusive scan of the counts. */
  lemma BlockAtDispl<T>(xs: seq<T>, p: nat, r: nat)
    requires r < p
    ensures ExclusiveScan(Counts(|xs|, p))[r] + Counts(|xs|, p)[r] <= |xs|
    ensures Block(xs, p, r)
            == xs[ExclusiveScan(Counts(|xs|, p))[r] .. ExclusiveScan(Counts(|xs|, p))[r] + Counts(|xs|, p)[r]]
  {
    var cs := Counts(|xs|, p);
    var d := ExclusiveScan(cs)[r];
    assert d == Sum(cs[..r]);
    DisplOfBlock(|xs|, p, r);
    BlockFrom(xs, p, r, d, cs[r]);
  }

  lemma BlockFrom<T>(xs: seq<T>, p: nat, r: nat, d: nat, c: nat)
    requires r < p && d == r * (|xs| / p) && c == BlockCount(|xs|, p, r)
    ensures d + c <= |xs| && Block(xs, p, r) == xs[d .. d + c]
  {
    var q := |xs| / p;
    LowerBlocksFit(|xs|, p);
    if r < p - 1 {
      MulMonotone(r + 1, p - 1, q);
      assert d + c == (r + 1) * q;
    } else {
      assert d + c == |xs|;
    }
  }

  /** Where each block starts, and N past the last. */
  function Bounds(n: nat, p: nat): (b: seq<nat>)
    requires p > 0
    ensures |b| == p + 1 && b[0] == 0 && b[p] == n
  {
    seq(p + 1, r requires 0 <= r <= p => if r < p then r * (n / p) else n)
  }

  /** The block bounds never go down. */
  lemma BoundsMonotone(n: nat, p: nat, i: nat, j: nat)
    requires p > 0 && i <= j <= p
    ensures Bounds(n, p)[i] <= Bounds(n, p)[j]
  {
    LowerBlocksFit(n, p);
    if j < p {
      MulMonotone(i, j, n / p);
    } else if i < p {
      MulMonotone(i, p - 1, n / p);
    }
  }

  /** Block r lies between the bounds r and r + 1. */
  lemma BlockIsSlice<T>(xs: seq<T>, p: nat, r: nat)
    requires r < p
    ensures Bounds(|xs|, p)[r] <= Bounds(|xs|, p)[r + 1] <= |xs|
    ensures Block(xs, p, r) == xs[Bounds(|xs|, p)[r] .. Bounds(|xs|, p)[r + 1]]
  {
    if r < p - 1 {
      LowerBlock(xs, p, r);
    } else {
      LowerBlocksFit(|xs|, p);
    }
  }

  /** Every rank's block, in rank order. */
  function Blocks<T>(xs: seq<T>, p: nat): (bs: seq<seq<T>>)
    ensures |bs| == p
    ensures forall r :: 0 <= r < p ==> bs[r] == Block(xs, p, r)
  {
    seq(p, r requires 0 <= r < p => Block(xs, p, r))
  }

  /** Scattering the blocks and gathering them back gives the global list. */
  lemma BlocksConcat<T>(xs: seq<T>, p: nat)
    requires p > 0
    ensures Concat(Blocks(xs, p)) == xs
  {
    var n := |xs|;
    var parts := Blocks(xs, p);
    var b := Bounds(n, p);
    forall i, j | 0 <= i <= j < p + 1
      ensures b[i] <= b[j]
    {
      BoundsMonotone(n, p, i, j);
    }
    forall r {:trigger parts[r]} | 0 <= r < p
      ensures parts[r] == xs[b[r] .. b[r + 1]]
    {
      BlockIsSlice(xs, p, r);
    }
    ConcatSlices(xs, parts, b);
  }
}
