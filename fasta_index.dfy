/**
 * The earlier FASTA index reader `fasta_index_t` (fasta_index.c,
 * fasta_index.h): the same parse of the `.fai` text as
 * `elba_fasta_index_read`, without the sequence names, and the same linear
 * block partition, but without the check that every rank gets a record: a
 * grid with more processes than records hands the lower ranks empty
 * blocks.  Its functions return -1 on a NULL argument and 0 otherwise.
 *
 * The scatter is sequentialised as in `ElbaFaidx`: every rank is handed the
 * root's records and plan directly.
 */
module LegacyFastaIndex {
  import opened Collectives
  import opened Partition
  import opened FaiFormat
  import opened Size
  import opened CommGrid
  import ElbaFaidx

  /** `fasta_index_t`: the rank's records and the grid it was read on. */
  class FastaIndex {
    var grid: Grid?
    var records: seq<FaiRecord>
    var numRecords: nat

    /** `(fasta_index_t){0}`. */
    constructor ()
      ensures grid == null && records == [] && numRecords == 0
    {
      grid, records, numRecords := null, [], 0;
    }
  }

  /**
   * `fasta_index_read` on the process at `grid.gridrank`: the root parses
   * the index; every rank r keeps block r of the records, `N/P` of them below
   * the last rank, at its displacement in the exclusive scan of the counts.
   * The read always returns 0.
   */
  method Read(index: FastaIndex, file: seq<char>, grid: Grid) returns (rc: int)
    requires grid.dims > 0 && 0 <= grid.gridrank < grid.NumProcs()
    requires Parsable(file) && |Records(file)| <= INT_MAX
    modifies index
    ensures rc == 0
    ensures index.records == Block(Records(file), grid.NumProcs(), grid.gridrank)
    ensures index.numRecords == |index.records| == BlockCount(|Records(file)|, grid.NumProcs(), grid.gridrank)
    ensures index.grid == grid
  {
    var nprocs := grid.dims * grid.dims;
    var myrank := grid.gridrank;
    var grecs: seq<FaiRecord>;
    var counts: seq<nat>;
    var displs: seq<nat>;
    if myrank == 0 {
      grecs := ElbaFaidx.ParseIndex(file, null);
      var sendcounts, sdispls := Plan(|grecs|, nprocs);
      counts, displs := sendcounts[..], sdispls[..];
    } else {
      grecs := Records(file);
      counts, displs := Counts(|grecs|, nprocs), ExclusiveScan(Counts(|grecs|, nprocs));
    }
    BlockAtDispl(grecs, nprocs, myrank);
    var recvcount := counts[myrank];
    var myrecs := grecs[displs[myrank] .. displs[myrank] + recvcount];
    index.records, index.numRecords, index.grid := myrecs, recvcount, grid;
    rc := 0;
  }

  /**
   * What the missing check lets through: with more processes than records,
   * every rank below the last is sent no record and the last rank is sent
   * all of them.
   */
  lemma {:induction false} UncheckedBlocks(xs: seq<FaiRecord>, p: nat)
    requires ElbaFaidx.TooManyProcs(|xs|, p)
    ensures forall r :: 0 <= r < p - 1 ==> Block(xs, p, r) == []
    ensures Block(xs, p, p - 1) == xs
  {
    forall r | 0 <= r < p - 1
      ensures Block(xs, p, r) == []
    {
      assert |Block(xs, p, r)| == BlockCount(|xs|, p, r) == 0;
    }
    assert (p - 1) * (|xs| / p) == 0;
  }

  /** `fasta_index_free`: a NULL index gives -1; otherwise the index is zeroed and 0 returned. */
  method Free(index: FastaIndex?) returns (rc: int)
    modifies if index == null then {} else {index}
    ensures rc == -1 <==> index == null
    ensures rc != -1 ==> rc == 0 && index.records == [] && index.numRecords == 0 && index.grid == null
  {
    if index == null {
      return -1;
    }
    index.records, index.numRecords, index.grid := [], 0, null;
    rc := 0;
  }
}
