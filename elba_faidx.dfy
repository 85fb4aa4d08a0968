/**
 * Reading a samtools `.fai` index across the grid (src/elba_faidx.c,
 * inc/elba_faidx.h).  The root process cuts the index into lines, converts
 * every line into a record and, when asked, pushes every sequence name onto
 * a string table; it then plans a linear block partition of the records and
 * scatters them, so that rank r keeps the r-th block.
 *
 * The scatter is sequentialised: every rank is handed the root's records and
 * plan directly.  The file is a parameter holding the bytes of the index.
 */
module ElbaFaidx {
  import opened Wrappers
  import opened ElbaError
  import opened Collectives
  import opened Partition
  import opened FaiFormat
  import opened Size
  import opened Mem
  import opened CommGrid
  import opened ElbaStrStore
  import ElbaStr

  /** `elba_fasta_index_t`: the rank's records and the grid it was read on. */
  class FastaIndex {
    var grid: Grid?
    var records: seq<FaiRecord>
    var numRecords: nat

    /** `(elba_fasta_index_t){0}`. */
    constructor ()
      ensures grid == null && records == [] && numRecords == 0
    {
      grid, records, numRecords := null, [], 0;
    }
  }

  /** The least room the record array is given. */
  const MIN_RECORDS: nat := 256

  /** The room for records after growing to hold num + 1: next_pow2(num + 1), at least 256. */
  function RecordRoom(num: nat): (m: nat)
    ensures num < m && MIN_RECORDS <= m
    ensures m == MIN_RECORDS || m == CeilPow2(num + 1)
  {
    var a := CeilPow2(num + 1);
    if a > MIN_RECORDS then a else MIN_RECORDS
  }

  // ---------------------------------------------------------------------
  // The root's parse loop

  /** The names pushed for the first num + 1 lines: those of the first num, then the name of line num if it has one. */
  lemma NamesStep(ls: seq<seq<char>>, num: nat, before: seq<seq<char>>)
    requires num < |ls|
    ensures before + NamesOf(ls[..num + 1])
            == (before + NamesOf(ls[..num])) + (if |NameOf(ls[num])| > 0 then [NameOf(ls[num])] else [])
  {
    assert ls[..num + 1][..num] == ls[..num];
  }

  /** The name loop: how many characters precede the first white space of the line. */
  method NameLength(line: seq<char>) returns (namelen: nat)
    ensures namelen == |NameOf(line)|
  {
    namelen := 0;
    while namelen < |line| && !IsSpace(line[namelen])
      invariant namelen <= |line|
      invariant forall k :: 0 <= k < namelen ==> !IsSpace(line[k])
    {
      namelen := namelen + 1;
    }
    NameOfUnique(line, namelen);
  }

  /**
   * The parse loop of `elba_fasta_index_read`: each line ending in '\n'
   * becomes one record, in file order, and bytes after the last '\n' are
   * ignored; the record array grows to RecordRoom(num) whenever it is full
   * and is trimmed to the number of records at the end.  With a string
   * table, the name of each line is pushed onto it (an empty name is
   * refused by the table).
   */
  method ParseIndex(file: seq<char>, names: StrStore?) returns (grecs: seq<FaiRecord>)
    requires Parsable(file)
    requires names != null ==> names.Valid()
    modifies if names == null then {} else {names, names.buf}
    ensures grecs == Records(file)
    ensures names != null ==>
              names.buf == old(names.buf) && names.Valid()
              && names.Strings() == old(names.Strings()) + Names(file)
  {
    ghost var ls := Lines(file, 0);
    ghost var before := if names == null then [] else names.Strings();
    ghost var all := before;
    ghost var buf0: ElbaStr.Str? := if names == null then null else names.buf;
    var pos := 0;
    var num := 0;
    var avail := 0;
    grecs := [];
    while pos < |file|
      invariant Parsed(file, ls, before, all, pos, num, avail, grecs)
      invariant NamesHeld(names, buf0, all)
      decreases |file| - pos
    {
      var next := NextNewline(file, pos);
      if next.None? {
        break;
      }
      pos, num, avail, grecs, all := ParseStep(file, names, buf0, ls, before, all, pos, next.value, num, avail, grecs);
    }
    ParsedAll(file, ls, before, all, pos, num, avail, grecs);
    grecs := Resized(grecs, num, FaiRecord(0, 0, 0));
  }

  /**
   * The state of the parse loop after num lines: the records of those lines
   * are the first num of the array, which has room avail, and the names
   * pushed so far are those of those lines; pos is where line num starts.
   */
  ghost predicate Parsed(file: seq<char>, ls: seq<seq<char>>, before: seq<seq<char>>, all: seq<seq<char>>,
                         pos: nat, num: nat, avail: nat, grecs: seq<FaiRecord>)
  {
    && Parsable(file) && ls == Lines(file, 0)
    && pos <= |file| && num <= |ls| && ls[num..] == Lines(file, pos)
    && |grecs| == avail && num <= avail
    && grecs[..num] == Records(file)[..num]
    && all == before + NamesOf(ls[..num])
  }

  /** The name table, when there is one, still writes into buf0, is well formed and holds the names ss. */
  ghost predicate NamesHeld(names: StrStore?, buf0: ElbaStr.Str?, ss: seq<seq<char>>)
    reads names, if names == null then {} else {names.buf}
  {
    names != null ==> names.buf == buf0 && names.Valid() && names.Strings() == ss
  }

  /**
   * Once no newline is left, the parse has seen every line: trimming the
   * array to the lines read leaves exactly the records of the index, and
   * the names pushed are the names of the index.
   */
  lemma ParsedAll(file: seq<char>, ls: seq<seq<char>>, before: seq<seq<char>>, all: seq<seq<char>>,
                  pos: nat, num: nat, avail: nat, grecs: seq<FaiRecord>)
    requires Parsed(file, ls, before, all, pos, num, avail, grecs)
    requires pos == |file| || NextNewline(file, pos).None?
    ensures num == |Records(file)|
    ensures Resized(grecs, num, FaiRecord(0, 0, 0)) == Records(file)
    ensures all == before + Names(file)
  {
    assert Lines(file, pos) == [];
    assert ls[..num] == ls;
    assert Records(file)[..num] == Records(file);
  }

  /**
   * One turn of the parse loop: the line from pos to the newline at j
   * becomes record num, and its name is pushed when there is a table.
   */
  method ParseStep(file: seq<char>, names: StrStore?, ghost buf0: ElbaStr.Str?, ghost ls: seq<seq<char>>,
                   ghost before: seq<seq<char>>, ghost all: seq<seq<char>>,
                   pos: nat, j: nat, num: nat, avail: nat, grecs: seq<FaiRecord>)
    returns (pos': nat, num': nat, newAvail: nat, recs: seq<FaiRecord>, ghost all': seq<seq<char>>)
    requires Parsed(file, ls, before, all, pos, num, avail, grecs)
    requires pos < |file| && NextNewline(file, pos) == Some(j)
    requires NamesHeld(names, buf0, all)
    modifies if names == null then {} else {names, names.buf}
    ensures pos' == j + 1 <= |file| && num' == num + 1
    ensures Parsed(file, ls, before, all', pos', num', newAvail, recs)
    ensures NamesHeld(names, buf0, all')
  {
    pos', num' := j + 1, num + 1;
    var line := file[pos .. j];
    newAvail, recs := ParseLine(file, ls, pos, j, num, avail, grecs);
    if names != null {
      PushName(names, line);
    }
    all' := NextNames(ls, num, before, all);
  }

  /** The names after line num: those before it and then its name, if it has one. */
  function NextNames(ls: seq<seq<char>>, num: nat, before: seq<seq<char>>, all: seq<seq<char>>): (r: seq<seq<char>>)
    requires num < |ls| && all == before + NamesOf(ls[..num])
    ensures r == before + NamesOf(ls[..num + 1])
  {
    NamesStep(ls, num, before);
    all + (if |NameOf(ls[num])| > 0 then [NameOf(ls[num])] else [])
  }

  /** One turn of the parse loop: the line from pos to the newline at j becomes record num. */
  method ParseLine(file: seq<char>, ghost ls: seq<seq<char>>, pos: nat, j: nat, num: nat, avail: nat, grecs: seq<FaiRecord>)
    returns (newAvail: nat, recs: seq<FaiRecord>)
    requires Parsable(file) && ls == Lines(file, 0)
    requires pos < |file| && NextNewline(file, pos) == Some(j)
    requires num <= |ls| && ls[num..] == Lines(file, pos)
    requires |grecs| == avail && num <= avail
    requires grecs[..num] == Records(file)[..num]
    ensures num + 1 <= |ls| && ls[num] == file[pos .. j] && ls[num + 1..] == Lines(file, j + 1)
    ensures |recs| == newAvail && num + 1 <= newAvail
    ensures recs[..num + 1] == Records(file)[..num + 1]
  {
    LineAt(file, ls, pos, j, num);
    ghost var rs := Records(file);
    RecordAt(file, num);
    newAvail, recs := AddRecord(grecs, avail, num, file[pos .. j], rs[num]);
    assert rs[..num + 1] == rs[..num] + [rs[num]];
  }

  /** The line at pos is line num of the index, and the lines after it follow. */
  lemma LineAt(file: seq<char>, ls: seq<seq<char>>, pos: nat, j: nat, num: nat)
    requires pos < |file| && NextNewline(file, pos) == Some(j)
    requires num <= |ls| && ls[num..] == Lines(file, pos)
    ensures num + 1 <= |ls| && ls[num] == file[pos .. j] && ls[num + 1..] == Lines(file, j + 1)
  {
    LinesStep(file, pos, j);
    assert ls[num..][1..] == ls[num + 1..];
  }

  /** Record num of the index is what line num converts to. */
  lemma RecordAt(file: seq<char>, num: nat)
    requires Parsable(file) && num < |Lines(file, 0)|
    ensures Scan(Lines(file, 0)[num]) == Some(Records(file)[num])
  {
    ParsableLines(file);
  }

  /**
   * One record of the parse loop: the array grows to RecordRoom(num) when
   * num + 1 exceeds its room, and the record converted from the line is
   * written at index num.
   */
  method AddRecord(grecs: seq<FaiRecord>, avail: nat, num: nat, line: seq<char>, ghost r: FaiRecord)
    returns (newAvail: nat, recs: seq<FaiRecord>)
    requires |grecs| == avail && num <= avail && Scan(line) == Some(r)
    ensures newAvail == if num + 1 > avail then RecordRoom(num) else avail
    ensures |recs| == newAvail && num < newAvail
    ensures recs[..num + 1] == grecs[..num] + [r]
  {
    newAvail, recs := avail, grecs;
    if num + 1 > avail {
      newAvail := RecordRoom(num);
      recs := Resized(recs, newAvail, FaiRecord(0, 0, 0));
    }
    recs := recs[num := Scan(line).value];
  }

  /** The name step of the parse loop: the white-space-free prefix of the line is pushed. */
  method PushName(names: StrStore, line: seq<char>)
    requires names.Valid()
    modifies names, names.buf
    ensures names.buf == old(names.buf) && names.Valid()
    ensures names.Strings() == old(names.Strings()) + (if |NameOf(line)| > 0 then [NameOf(line)] else [])
  {
    var namelen := NameLength(line);
    var rc := PushL(names, Some(line), namelen);
    assert line[..namelen] == NameOf(line);
  }

  // ---------------------------------------------------------------------
  // The partition

  /** `elba_fasta_index_read` refuses to give any rank but the last no records. */
  predicate TooManyProcs(n: nat, p: nat)
  {
    p > 1 && n / p == 0
  }

  /**
   * The partition loop of the root: ranks 0 .. P-2 get N/P records and
   * displacement i * (N/P), the last rank the rest; with more than one
   * process and fewer records than processes the loop stops at once and
   * the read fails.
   */
  method CheckedPlan(n: nat, p: nat) returns (rc: int, counts: array<nat>, displs: array<nat>)
    requires p > 0
    ensures fresh(counts) && fresh(displs)
    ensures rc == FAILURE <==> TooManyProcs(n, p)
    ensures rc != FAILURE ==> rc == SUCCESS && counts[..] == Counts(n, p) && displs[..] == ExclusiveScan(Counts(n, p))
  {
    counts := new nat[p];
    displs := new nat[p];
    var q := n / p;
    displs[0] := 0;
    var i := 0;
    while i < p - 1
      invariant 0 <= i <= p - 1
      invariant i > 0 ==> q > 0
      invariant forall k :: 0 <= k < i ==> counts[k] == q
      invariant forall k :: 0 <= k <= i ==> displs[k] == k * q
    {
      counts[i] := q;
      displs[i + 1] := displs[i] + counts[i];
      assert displs[i + 1] == (i + 1) * q;
      if counts[i] == 0 {
        assert TooManyProcs(n, p);
        return FAILURE, counts, displs;
      }
      i := i + 1;
    }
    assert !TooManyProcs(n, p);
    LowerBlocksFit(n, p);
    counts[p - 1] := n - (p - 1) * q;
    PlanIsScan(counts[..], displs[..], n, p);
    rc := SUCCESS;
  }

  // ---------------------------------------------------------------------
  // The read and the free

  /**
   * `elba_fasta_index_read` on the process at `grid.gridrank`: the root
   * parses the index (pushing the names when a table is given) and fails
   * when there are more processes than records; otherwise every rank r keeps
   * block r of the records, `N/P` of them below the last rank, at its
   * displacement in the exclusive scan of the counts.
   */
  method Read(index: FastaIndex, file: seq<char>, names: StrStore?, grid: Grid) returns (rc: int)
    requires grid.dims > 0 && 0 <= grid.gridrank < grid.NumProcs()
    requires Parsable(file) && |Records(file)| <= INT_MAX
    requires grid.gridrank == 0 && names != null ==> names.Valid()
    requires grid.gridrank != 0 ==> !TooManyProcs(|Records(file)|, grid.NumProcs())
    modifies index, if grid.gridrank == 0 && names != null then {names, names.buf} else {}
    ensures rc == FAILURE <==> grid.gridrank == 0 && TooManyProcs(|Records(file)|, grid.NumProcs())
    ensures rc != FAILURE ==>
              rc == SUCCESS
              && index.records == Block(Records(file), grid.NumProcs(), grid.gridrank)
              && index.numRecords == |index.records| == BlockCount(|Records(file)|, grid.NumProcs(), grid.gridrank)
              && index.grid == grid
    ensures rc == FAILURE ==> unchanged(index)
    ensures grid.gridrank == 0 && names != null ==>
              names.buf == old(names.buf) && names.Valid()
              && names.Strings() == old(names.Strings()) + Names(file)
  {
    var nprocs := grid.dims * grid.dims;
    var myrank := grid.gridrank;
    var grecs: seq<FaiRecord>;
    var counts: seq<nat>;
    var displs: seq<nat>;
    if myrank == 0 {
      grecs := ParseIndex(file, names);
      var planned, sendcounts, sdispls := CheckedPlan(|grecs|, nprocs);
      if planned == FAILURE {
        return FAILURE;
      }
      counts, displs := sendcounts[..], sdispls[..];
    } else {
      grecs := Records(file);
      counts, displs := Counts(|grecs|, nprocs), ExclusiveScan(Counts(|grecs|, nprocs));
    }
    BlockAtDispl(grecs, nprocs, myrank);
    var recvcount := counts[myrank];
    var myrecs := grecs[displs[myrank] .. displs[myrank] + recvcount];
    index.records, index.numRecords, index.grid := myrecs, recvcount, grid;
    rc := SUCCESS;
  }

  /** `elba_fasta_index_free`: a NULL index fails; otherwise the index is zeroed. */
  method Free(index: FastaIndex?) returns (rc: int)
    modifies if index == null then {} else {index}
    ensures rc == FAILURE <==> index == null
    ensures rc != FAILURE ==> rc == SUCCESS && index.records == [] && index.numRecords == 0 && index.grid == null
  {
    if index == null {
      return FAILURE;
    }
    index.records, index.numRecords, index.grid := [], 0, null;
    rc := SUCCESS;
  }
}
