/**
 * The square 2D process grid (src/commgrid.c, inc/commgrid.h).
 *
 * P processes, P a perfect square dims * dims, are laid out row by row:
 * process `rank` sits in row rank / dims and column rank % dims.  The row
 * and column communicators are split off the whole grid keyed by the grid
 * rank, so inside a row the processes come in column order and inside a
 * column in row order.  The MPI communicators themselves are not modelled;
 * the groups are modelled as the ordered lists of grid ranks they contain.
 */
module CommGrid {
  import opened ElbaError

  /** `commgrid_t` without its communicator handles. */
  class Grid {
    var dims: int
    var gridrank: int
    var gridrow: int
    var gridcol: int

    /** `(commgrid_t){0}`. */
    constructor ()
      ensures dims == 0 && gridrank == 0 && gridrow == 0 && gridcol == 0
    {
      dims, gridrank, gridrow, gridcol := 0, 0, 0, 0;
    }

    /** `commgrid_nprocs`: the number of processes in the grid. */
    function NumProcs(): (n: int)
      reads this
      ensures dims >= 0 ==> n >= 0
    {
      dims * dims
    }
  }

  // ---------------------------------------------------------------------
  // The integer square root that replaces `(int) sqrt(nprocs)`

  /** The largest r' >= r whose square is at most n. */
  function ISqrtFrom(n: nat, r: nat): (s: nat)
    requires r * r <= n
    ensures r <= s && s * s <= n < (s + 1) * (s + 1)
    decreases n - r
  {
    if (r + 1) * (r + 1) > n then r
    else
      assert r < r + 1 <= (r + 1) * (r + 1) <= n;
      ISqrtFrom(n, r + 1)
  }

  /** floor(sqrt(n)). */
  function ISqrt(n: nat): (s: nat)
    ensures s * s <= n < (s + 1) * (s + 1)
  {
    ISqrtFrom(n, 0)
  }

  lemma SquareMonotone(a: nat, b: nat)
    requires a <= b
    ensures a * a <= b * b
  {
    assert a * a <= a * b <= b * b;
  }

  /** The square root is the only candidate for a side of an n-process square. */
  lemma ISqrtUnique(n: nat, d: nat)
    requires d * d == n
    ensures ISqrt(n) == d
  {
    var s := ISqrt(n);
    if s < d {
      SquareMonotone(s + 1, d);
    } else if s > d {
      SquareMonotone(d + 1, s);
    }
  }

  /** The check of `commgrid_init`: dims * dims == nprocs with dims = floor(sqrt(nprocs)). */
  predicate IsSquare(n: nat)
  {
    ISqrt(n) * ISqrt(n) == n
  }

  lemma IsSquareIff(n: nat)
    ensures IsSquare(n) <==> exists d: nat :: d * d == n
  {
    if exists d: nat :: d * d == n {
      var d: nat :| d * d == n;
      ISqrtUnique(n, d);
    }
  }

  /**
   * `commgrid_init(grid, comm)` for the process `myrank` of a communicator of
   * `nprocs` processes: NULL fails, a non-square count stops the program
   * gracefully without touching the grid, otherwise the coordinates are set.
   */
  method Init(grid: Grid?, nprocs: nat, myrank: nat) returns (rc: int)
    requires myrank < nprocs
    modifies grid
    ensures grid == null ==> rc == FAILURE
    ensures grid != null && !IsSquare(nprocs) ==> rc == TERMINATE && unchanged(grid)
    ensures grid != null && IsSquare(nprocs) ==>
              rc == SUCCESS && grid.dims == ISqrt(nprocs) && grid.NumProcs() == nprocs
              && grid.gridrank == myrank
              && grid.gridrow == myrank / grid.dims && grid.gridcol == myrank % grid.dims
  {
    if grid == null {
      return FAILURE;
    }
    var dims := ISqrt(nprocs);
    if dims * dims != nprocs {
      return TERMINATE;
    }
    grid.dims := dims;
    grid.gridrank := myrank;
    grid.gridrow := myrank / dims;
    grid.gridcol := myrank % dims;
    rc := SUCCESS;
  }

  /** `commgrid_free`: NULL fails, otherwise the grid is zeroed. */
  method Free(grid: Grid?) returns (rc: int)
    modifies grid
    ensures grid == null ==> rc == FAILURE
    ensures grid != null ==> rc == SUCCESS && grid.dims == 0 && grid.gridrank == 0
                             && grid.gridrow == 0 && grid.gridcol == 0
  {
    if grid == null {
      return FAILURE;
    }
    grid.dims, grid.gridrank, grid.gridrow, grid.gridcol := 0, 0, 0, 0;
    rc := SUCCESS;
  }

  // ---------------------------------------------------------------------
  // Coordinates and the row and column groups

  /** Row and column of a grid rank. */
  lemma Coordinates(dims: nat, rank: nat)
    requires 0 < dims && rank < dims * dims
    ensures rank / dims < dims && rank % dims < dims
    ensures rank == (rank / dims) * dims + rank % dims
  {
    if rank / dims >= dims {
      MulLower(dims, rank / dims, dims);
    }
  }

  lemma MulLower(a: nat, b: nat, c: nat)
    requires a <= b
    ensures a * c <= b * c
  {
  }

  /** Row `row` as `MPI_Comm_split` with color gridrow and key gridrank orders it. */
  function RowGroup(dims: nat, row: nat): (g: seq<nat>)
    ensures |g| == dims
    ensures forall c :: 0 <= c < dims ==> g[c] == row * dims + c
  {
    seq(dims, c requires 0 <= c < dims => row * dims + c)
  }

  /** Column `col`, split with color gridcol and key gridrank. */
  function ColGroup(dims: nat, col: nat): (g: seq<nat>)
    ensures |g| == dims
    ensures forall r :: 0 <= r < dims ==> g[r] == r * dims + col
  {
    seq(dims, r requires 0 <= r < dims => r * dims + col)
  }

  /** A group listed in increasing key order, as `MPI_Comm_split` ranks it. */
  predicate Increasing(g: seq<nat>)
  {
    forall i, j :: 0 <= i < j < |g| ==> g[i] < g[j]
  }

  /** A grid rank is in row `row` exactly when rank / dims == row. */
  lemma RowGroupMembers(dims: nat, row: nat, rank: nat)
    requires 0 < dims && row < dims && rank < dims * dims
    ensures rank in RowGroup(dims, row) <==> rank / dims == row
  {
    Coordinates(dims, rank);
    var g := RowGroup(dims, row);
    if rank in g {
      var c :| 0 <= c < dims && g[c] == rank;
      assert rank == row * dims + c;
      DivOfCoordinates(dims, row, c);
    }
    if rank / dims == row {
      assert g[rank % dims] == rank;
    }
  }

  /** A grid rank is in column `col` exactly when rank % dims == col. */
  lemma ColGroupMembers(dims: nat, col: nat, rank: nat)
    requires 0 < dims && col < dims && rank < dims * dims
    ensures rank in ColGroup(dims, col) <==> rank % dims == col
  {
    Coordinates(dims, rank);
    var g := ColGroup(dims, col);
    if rank in g {
      var r :| 0 <= r < dims && g[r] == rank;
      assert rank == r * dims + col;
      DivOfCoordinates(dims, r, col);
    }
    if rank % dims == col {
      assert g[rank / dims] == rank;
    }
  }

  lemma DivOfCoordinates(dims: nat, r: nat, c: nat)
    requires c < dims
    ensures (r * dims + c) / dims == r && (r * dims + c) % dims == c
  {
    var x := r * dims + c;
    var q, m := x / dims, x % dims;
    assert x == q * dims + m && m < dims;
    assert (q + 1) * dims == q * dims + dims && (r + 1) * dims == r * dims + dims;
    if q < r {
      MulLower(q + 1, r, dims);
      assert false;
    } else if q > r {
      MulLower(r + 1, q, dims);
      assert false;
    }
  }

  /** Both groups are ranked by grid rank. */
  lemma GroupsIncreasing(dims: nat, i: nat)
    ensures Increasing(RowGroup(dims, i)) && Increasing(ColGroup(dims, i))
  {
    forall a, b | 0 <= a < b < dims
      ensures a * dims + i < b * dims + i
    {
      MulLower(a + 1, b, dims);
    }
  }

  /**
   * The rank of a process inside its row group is its grid column and inside
   * its column group its grid row: the assertions at the end of
   * `commgrid_init`.
   */
  lemma SplitRanks(dims: nat, rank: nat)
    requires 0 < dims && rank < dims * dims
    ensures RowGroup(dims, rank / dims)[rank % dims] == rank
    ensures ColGroup(dims, rank % dims)[rank / dims] == rank
  {
    Coordinates(dims, rank);
  }
}
