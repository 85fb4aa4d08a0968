/**
 * `elba_seq_store_share` (src/elba_seq_store.c): every process of the 2D
 * grid gathers the packed stores of the processes in its grid row into a
 * row store, and those of its grid column into a column store.
 *
 * The MPI collectives are modelled sequentially on the group of stores the
 * processes of one row (in column order) or one column (in row order) hold:
 * MPI_Allreduce is `Sum`, MPI_Exscan is `ExscanAt`, MPI_Allgather fills the
 * receive counts with every member's count, and MPI_Allgatherv places every
 * member's piece at its displacement, which with the displacements
 * `partial_sum` computes is `Concat`.
 */
module ElbaSeqShare {
  import opened ElbaError
  import opened Collectives
  import opened PackedLayout
  import opened Size
  import opened CommGrid
  import opened ElbaSeqStore

  /** Member k of a group is a valid store. */
  predicate ValidAt(g: seq<StoreValue>, k: nat)
  {
    k < |g| && g[k].Valid()
  }

  /** Every store of a group is valid. */
  predicate AllValid(g: seq<StoreValue>)
  {
    AllSized(g) && forall k :: 0 <= k < |g| ==> ValidAt(g, k)
  }

  /** Member k of a group has room in its arrays for its entries, and `numbytes` bytes. */
  predicate SizedAt(g: seq<StoreValue>, k: nat)
  {
    k < |g| && g[k].Sized() && |g[k].buf| == g[k].numbytes
  }

  /** Every store of a group is sized. */
  predicate AllSized(g: seq<StoreValue>)
  {
    forall k :: 0 <= k < |g| ==> SizedAt(g, k)
  }

  /** The members before the last of a sized group are sized, of a valid group valid. */
  lemma InitSized(g: seq<StoreValue>)
    requires |g| > 0
    ensures AllSized(g) ==> AllSized(g[..|g| - 1])
    ensures AllValid(g) ==> AllValid(g[..|g| - 1])
  {
    var n := |g| - 1;
    if AllSized(g) {
      forall k | 0 <= k < n
        ensures SizedAt(g[..n], k)
      {
        assert SizedAt(g, k);
      }
    }
    if AllValid(g) {
      forall k | 0 <= k < n
        ensures ValidAt(g[..n], k)
      {
        assert ValidAt(g, k);
      }
    }
  }

  /** The `numbytes` of the members of a group. */
  function NumBytes(g: seq<StoreValue>): (r: seq<nat>)
    ensures |r| == |g|
    ensures forall k :: 0 <= k < |g| ==> r[k] == g[k].numbytes
  {
    seq(|g|, k requires 0 <= k < |g| => g[k].numbytes)
  }

  /** The `numseqs` of the members of a group. */
  function NumSeqs(g: seq<StoreValue>): (r: seq<nat>)
    ensures |r| == |g|
    ensures forall k :: 0 <= k < |g| ==> r[k] == g[k].numseqs
  {
    seq(|g|, k requires 0 <= k < |g| => g[k].numseqs)
  }

  /** The `totbases` of the members of a group. */
  function TotBases(g: seq<StoreValue>): (r: seq<nat>)
    ensures |r| == |g|
    ensures forall k :: 0 <= k < |g| ==> r[k] == g[k].totbases
  {
    seq(|g|, k requires 0 <= k < |g| => g[k].totbases)
  }

  /** The byte buffers of the members of a group. */
  function Bufs(g: seq<StoreValue>): (r: seq<seq<bv8>>)
    ensures |r| == |g|
    ensures forall k :: 0 <= k < |g| ==> r[k] == g[k].buf
  {
    seq(|g|, k requires 0 <= k < |g| => g[k].buf)
  }

  /** The lengths arrays the members of a group send: their first `numseqs` entries. */
  function LensOf(g: seq<StoreValue>): (r: seq<seq<nat>>)
    requires AllSized(g)
    ensures |r| == |g|
    ensures forall k :: 0 <= k < |g| ==> SizedAt(g, k) && r[k] == g[k].Lens()
  {
    seq(|g|, k requires 0 <= k < |g| => assert SizedAt(g, k); g[k].Lens())
  }

  /** The gids arrays the members of a group send. */
  function GidsOf(g: seq<StoreValue>): (r: seq<seq<nat>>)
    requires AllSized(g)
    ensures |r| == |g|
    ensures forall k :: 0 <= k < |g| ==> SizedAt(g, k) && r[k] == g[k].Gids()
  {
    seq(|g|, k requires 0 <= k < |g| => assert SizedAt(g, k); g[k].Gids())
  }

  /**
   * The offsets arrays the members of a group send: member k's offsets
   * moved up by the bytes of the members before it.
   */
  function ShiftedOffs(g: seq<StoreValue>): (r: seq<seq<nat>>)
    requires AllSized(g)
    ensures |r| == |g|
    ensures forall k :: 0 <= k < |g| ==> SizedAt(g, k) && r[k] == Shift(g[k].Offs(), ExscanAt(NumBytes(g), k))
  {
    seq(|g|, k requires 0 <= k < |g| => assert SizedAt(g, k); Shift(g[k].Offs(), ExscanAt(NumBytes(g), k)))
  }

  /** What the members of a group read back as, member by member. */
  function EntriesOf(g: seq<StoreValue>): (r: seq<seq<seq<char>>>)
    requires AllValid(g)
    ensures |r| == |g|
    ensures forall k :: 0 <= k < |g| ==> ValidAt(g, k) && r[k] == g[k].Entries()
  {
    seq(|g|, k requires 0 <= k < |g| => assert ValidAt(g, k); g[k].Entries())
  }

  /** The store a group gathers into: every array and the buffer concatenated, the counters summed. */
  function Gathered(g: seq<StoreValue>): StoreValue
    requires AllSized(g)
  {
    StoreValue(Concat(Bufs(g)), Concat(LensOf(g)), Concat(ShiftedOffs(g)), Concat(GidsOf(g)),
               Sum(NumBytes(g)), Sum(NumSeqs(g)), Sum(TotBases(g)))
  }

  // ---------------------------------------------------------------------
  // The gathered store is a store

  /** The parts of a group without its last member are the first parts of the group's. */
  lemma GroupInit(g: seq<StoreValue>)
    requires AllSized(g) && |g| > 0
    ensures AllSized(g[..|g| - 1])
    ensures Bufs(g)[..|g| - 1] == Bufs(g[..|g| - 1])
    ensures LensOf(g)[..|g| - 1] == LensOf(g[..|g| - 1])
    ensures GidsOf(g)[..|g| - 1] == GidsOf(g[..|g| - 1])
    ensures NumBytes(g)[..|g| - 1] == NumBytes(g[..|g| - 1])
    ensures NumSeqs(g)[..|g| - 1] == NumSeqs(g[..|g| - 1])
    ensures TotBases(g)[..|g| - 1] == TotBases(g[..|g| - 1])
  {
    InitSized(g);
  }

  /** Shifting the members before the last by their Exscan does not depend on the last member. */
  lemma ShiftedInit(g: seq<StoreValue>)
    requires AllSized(g) && |g| > 0
    ensures AllSized(g[..|g| - 1])
    ensures ShiftedOffs(g)[..|g| - 1] == ShiftedOffs(g[..|g| - 1])
    ensures ShiftedOffs(g)[|g| - 1] == Shift(g[|g| - 1].Offs(), Sum(NumBytes(g[..|g| - 1])))
  {
    var n := |g| - 1;
    GroupInit(g);
    forall k | 0 <= k < n
      ensures ExscanAt(NumBytes(g), k) == ExscanAt(NumBytes(g[..n]), k)
    {
      assert NumBytes(g)[..k] == NumBytes(g[..n])[..k];
    }
  }

  /** The gathered arrays of a group are as long as its total `numseqs`. */
  lemma {:induction false} GatheredLengths(g: seq<StoreValue>)
    requires AllSized(g)
    ensures |Concat(LensOf(g))| == Sum(NumSeqs(g))
    ensures |Concat(ShiftedOffs(g))| == Sum(NumSeqs(g))
    ensures |Concat(GidsOf(g))| == Sum(NumSeqs(g))
  {
    assert Lengths(LensOf(g)) == NumSeqs(g);
    assert Lengths(ShiftedOffs(g)) == NumSeqs(g);
    assert Lengths(GidsOf(g)) == NumSeqs(g);
    ConcatLength(LensOf(g));
    ConcatLength(ShiftedOffs(g));
    ConcatLength(GidsOf(g));
  }

  /**
   * Gathering a group is gathering all members but the last and then
   * placing the last member's bytes and arrays after theirs, its offsets
   * moved up by their bytes.
   */
  lemma GatheredSplit(g: seq<StoreValue>)
    requires AllSized(g) && |g| > 0
    ensures AllSized(g[..|g| - 1])
    ensures Gathered(g).buf == Gathered(g[..|g| - 1]).buf + g[|g| - 1].buf
    ensures Gathered(g).lengths == Gathered(g[..|g| - 1]).lengths + g[|g| - 1].Lens()
    ensures Gathered(g).gids == Gathered(g[..|g| - 1]).gids + g[|g| - 1].Gids()
    ensures Gathered(g).offsets
            == Gathered(g[..|g| - 1]).offsets + Shift(g[|g| - 1].Offs(), Gathered(g[..|g| - 1]).numbytes)
    ensures Gathered(g).numbytes == Gathered(g[..|g| - 1]).numbytes + g[|g| - 1].numbytes
    ensures Gathered(g).numseqs == Gathered(g[..|g| - 1]).numseqs + g[|g| - 1].numseqs
    ensures Gathered(g).totbases == Gathered(g[..|g| - 1]).totbases + g[|g| - 1].totbases
  {
    GroupInit(g);
    ShiftedInit(g);
  }

  /** The entries of a group are those of all members but the last, then the last member's. */
  lemma EntriesSplit(g: seq<StoreValue>)
    requires AllValid(g) && |g| > 0
    ensures AllValid(g[..|g| - 1])
    ensures Concat(EntriesOf(g)) == Concat(EntriesOf(g[..|g| - 1])) + g[|g| - 1].Entries()
  {
    assert EntriesOf(g)[..|g| - 1] == EntriesOf(g[..|g| - 1]);
  }

  /**
   * The gathered store is valid, and its entries are the entries of the
   * first member, then those of the second, and so on: no sequence is lost,
   * duplicated, reordered or altered by the share.
   */
  lemma {:induction false} GatheredValid(g: seq<StoreValue>)
    requires AllValid(g)
    ensures Gathered(g).Valid()
    ensures Gathered(g).Entries() == Concat(EntriesOf(g))
    decreases |g|
  {
    GatheredLengths(g);
    if |g| == 0 {
      LaidEmpty();
      assert Gathered(g).Lens() == [] && Gathered(g).Offs() == [];
    } else {
      var n := |g| - 1;
      GatheredSplit(g);
      EntriesSplit(g);
      GatheredValid(g[..n]);
      GatheredLengths(g[..n]);
      JoinStores(Gathered(g[..n]), g[n], Gathered(g));
    }
  }

  /**
   * A valid store whose arrays hold exactly its entries, followed by a
   * second valid store placed after it, is a valid store reading back the
   * entries of both.
   */
  lemma JoinStores(v: StoreValue, last: StoreValue, w: StoreValue)
    requires v.Valid() && last.Valid()
    requires |v.lengths| == v.numseqs && |v.offsets| == v.numseqs
    requires |w.lengths| == w.numseqs && |w.offsets| == w.numseqs && |w.gids| == w.numseqs
    requires w.buf == v.buf + last.buf && w.numbytes == v.numbytes + last.numbytes
    requires w.lengths == v.lengths + last.Lens() && w.offsets == v.offsets + Shift(last.Offs(), v.numbytes)
    requires w.numseqs == v.numseqs + last.numseqs && w.totbases == v.totbases + last.totbases
    ensures w.Valid()
    ensures w.Entries() == v.Entries() + last.Entries()
  {
    assert v.Lens() == v.lengths && v.Offs() == v.offsets;
    assert w.Lens() == w.lengths && w.Offs() == w.offsets;
    LaidJoin(v.buf, v.lengths, v.offsets, last.buf, last.Lens(), last.Offs());
    SumAppend(v.lengths, last.Lens());
  }

  /**
   * Where a sequence lands: entry i of member k is found in the gathered
   * store at index ExclusiveScan(NumSeqs(g))[k] + i, with the same length
   * and global id, reading back the same bases.
   */
  lemma GatheredEntry(g: seq<StoreValue>, k: nat, i: nat)
    requires AllValid(g) && k < |g| && i < g[k].numseqs
    ensures ValidAt(g, k) && Gathered(g).Valid()
    ensures ExclusiveScan(NumSeqs(g))[k] + i < Gathered(g).numseqs
    ensures Gathered(g).lengths[ExclusiveScan(NumSeqs(g))[k] + i] == g[k].lengths[i]
    ensures Gathered(g).gids[ExclusiveScan(NumSeqs(g))[k] + i] == g[k].gids[i]
    ensures Gathered(g).Entries()[ExclusiveScan(NumSeqs(g))[k] + i] == g[k].Entries()[i]
  {
    EntriesPlaced(g, k, i);
    LensPlaced(g, k, i);
    GidsPlaced(g, k, i);
  }

  /** Entry i of member k reads back the same at its displacement in the gathered store. */
  lemma EntriesPlaced(g: seq<StoreValue>, k: nat, i: nat)
    requires AllValid(g) && k < |g| && i < g[k].numseqs
    ensures ValidAt(g, k) && Gathered(g).Valid()
    ensures ExclusiveScan(NumSeqs(g))[k] + i < Gathered(g).numseqs
    ensures Gathered(g).Entries()[ExclusiveScan(NumSeqs(g))[k] + i] == g[k].Entries()[i]
  {
    GatheredValid(g);
    EntryPlaced(g, k, i, Gathered(g).Entries());
  }

  lemma EntryPlaced(g: seq<StoreValue>, k: nat, i: nat, all: seq<seq<char>>)
    requires AllValid(g) && k < |g| && i < g[k].numseqs
    requires all == Concat(EntriesOf(g))
    ensures ValidAt(g, k)
    ensures ExclusiveScan(NumSeqs(g))[k] + i < |all|
    ensures all[ExclusiveScan(NumSeqs(g))[k] + i] == g[k].Entries()[i]
  {
    var es := EntriesOf(g);
    EntriesCounted(g);
    assert ValidAt(g, k) && es[k] == g[k].Entries();
    PlacedIn(all, es, NumSeqs(g), k, i, g[k].Entries());
  }

  /** Member k contributes `numseqs` entries. */
  lemma EntriesCounted(g: seq<StoreValue>)
    requires AllValid(g)
    ensures Lengths(EntriesOf(g)) == NumSeqs(g)
  {
    var es := EntriesOf(g);
    forall k | 0 <= k < |g|
      ensures Lengths(es)[k] == NumSeqs(g)[k]
    {
      assert ValidAt(g, k) && es[k] == g[k].Entries();
    }
  }

  /** The length of entry i of member k lands at its displacement. */
  lemma LensPlaced(g: seq<StoreValue>, k: nat, i: nat)
    requires AllSized(g) && k < |g| && i < g[k].numseqs
    ensures ExclusiveScan(NumSeqs(g))[k] + i < |Gathered(g).lengths|
    ensures Gathered(g).lengths[ExclusiveScan(NumSeqs(g))[k] + i] == g[k].lengths[i]
  {
    var ls := LensOf(g);
    assert Lengths(ls) == NumSeqs(g);
    PlacedAt(ls, NumSeqs(g), k, i);
    assert ls[k][i] == g[k].lengths[i];
  }

  /** The global id of entry i of member k lands at its displacement. */
  lemma GidsPlaced(g: seq<StoreValue>, k: nat, i: nat)
    requires AllSized(g) && k < |g| && i < g[k].numseqs
    ensures ExclusiveScan(NumSeqs(g))[k] + i < |Gathered(g).gids|
    ensures Gathered(g).gids[ExclusiveScan(NumSeqs(g))[k] + i] == g[k].gids[i]
  {
    var gs := GidsOf(g);
    assert Lengths(gs) == NumSeqs(g);
    PlacedAt(gs, NumSeqs(g), k, i);
    assert gs[k][i] == g[k].gids[i];
  }

  /** Element i of piece k of a concatenation, stated for a sequence equal to the concatenation. */
  lemma PlacedIn<T>(all: seq<T>, parts: seq<seq<T>>, counts: seq<nat>, k: nat, i: nat, part: seq<T>)
    requires all == Concat(parts) && Lengths(parts) == counts
    requires k < |parts| && parts[k] == part && i < |part|
    ensures ExclusiveScan(counts)[k] + i < |all|
    ensures all[ExclusiveScan(counts)[k] + i] == part[i]
  {
    PlacedAt(parts, counts, k, i);
  }

  /** Element i of piece k of a concatenation is at the exclusive scan of the piece lengths at k, plus i. */
  lemma PlacedAt<T>(parts: seq<seq<T>>, counts: seq<nat>, k: nat, i: nat)
    requires Lengths(parts) == counts && k < |parts| && i < |parts[k]|
    ensures ExclusiveScan(counts)[k] + i < |Concat(parts)|
    ensures Concat(parts)[ExclusiveScan(counts)[k] + i] == parts[k][i]
  {
    ConcatIndex(parts, k, i);
  }

  // ---------------------------------------------------------------------
  // The steps of the share

  /**
   * `partial_sum`: displs[0] = 0 and displs[i + 1] = displs[i] + counts[i],
   * that is, the displacements are the exclusive prefix sums of the counts.
   */
  method PartialSum(displs: array<nat>, counts: array<nat>, n: nat)
    requires 1 <= n <= displs.Length && n <= counts.Length && displs != counts
    modifies displs
    ensures displs[..n] == ExclusiveScan(counts[..n])
    ensures displs[n..] == old(displs[n..])
  {
    displs[0] := 0;
    var i := 0;
    while i < n - 1
      invariant 0 <= i <= n - 1
      invariant displs[0] == 0
      invariant forall k :: 0 <= k < i ==> displs[k] + counts[k] == displs[k + 1]
      invariant displs[n..] == old(displs[n..])
    {
      displs[i + 1] := displs[i] + counts[i];
      i := i + 1;
    }
    ScanOfSteps(counts[..n], displs[..n]);
  }

  /**
   * MPI_Allgather with MPI_IN_PLACE: every member's count, the caller's
   * own already in place at its index, ends up in the receive buffer.
   */
  method Allgather(recvcnts: array<nat>, all: seq<nat>, me: nat)
    requires |all| == recvcnts.Length && me < |all| && recvcnts[me] == all[me]
    modifies recvcnts
    ensures recvcnts[..] == all
  {
    forall k | 0 <= k < recvcnts.Length {
      recvcnts[k] := all[k];
    }
  }

  /**
   * MPI_Allgatherv: with receive counts that are the pieces' lengths and
   * displacements that are their exclusive prefix sums, piece k is placed
   * at displacement k and the result is exactly as long as the pieces.
   */
  function Allgatherv<T>(parts: seq<seq<T>>, recvcnts: seq<nat>, displs: seq<nat>): (r: seq<T>)
    requires recvcnts == Lengths(parts) && displs == ExclusiveScan(recvcnts)
    ensures |r| == Sum(recvcnts)
    ensures forall k :: 0 <= k < |parts| ==> displs[k] + |parts[k]| <= |r|
    ensures forall k, i :: 0 <= k < |parts| && 0 <= i < |parts[k]| ==> r[displs[k] + i] == parts[k][i]
  {
    ConcatLength(parts);
    PlacedAtDispls(parts, displs);
    Concat(parts)
  }

  /** Every piece lies within the concatenation, every element of it where the displacements say. */
  lemma PlacedAtDispls<T>(parts: seq<seq<T>>, displs: seq<nat>)
    requires displs == ExclusiveScan(Lengths(parts))
    ensures forall k :: 0 <= k < |parts| ==> displs[k] + |parts[k]| <= |Concat(parts)|
    ensures forall k, i :: 0 <= k < |parts| && 0 <= i < |parts[k]| ==> Concat(parts)[displs[k] + i] == parts[k][i]
  {
    forall k | 0 <= k < |parts|
      ensures displs[k] + |parts[k]| <= |Concat(parts)|
    {
      PlacedWithin(parts, k);
    }
    forall k, i | 0 <= k < |parts| && 0 <= i < |parts[k]|
      ensures Concat(parts)[displs[k] + i] == parts[k][i]
    {
      PlacedAt(parts, Lengths(parts), k, i);
    }
  }

  /** Piece k ends within the concatenation. */
  lemma PlacedWithin<T>(parts: seq<seq<T>>, k: nat)
    requires k < |parts|
    ensures ExclusiveScan(Lengths(parts))[k] + |parts[k]| <= |Concat(parts)|
  {
    ConcatLength(parts);
    SumBoundsElement(Lengths(parts), k);
  }

  /** The loop of the share: the caller's offsets moved up by its row offset and by its column offset. */
  method ShiftOffsets(offsets: seq<nat>, sendcnt: nat, rowOffset: nat, colOffset: nat)
      returns (rowOffsets: array<nat>, colOffsets: array<nat>)
    requires sendcnt <= |offsets|
    ensures fresh(rowOffsets) && fresh(colOffsets)
    ensures rowOffsets[..] == Shift(offsets[..sendcnt], rowOffset)
    ensures colOffsets[..] == Shift(offsets[..sendcnt], colOffset)
  {
    rowOffsets := new nat[sendcnt];
    colOffsets := new nat[sendcnt];
    var i := 0;
    while i < sendcnt
      invariant i <= sendcnt
      invariant forall k :: 0 <= k < i ==> rowOffsets[k] == offsets[k] + rowOffset
      invariant forall k :: 0 <= k < i ==> colOffsets[k] == offsets[k] + colOffset
    {
      rowOffsets[i] := offsets[i] + rowOffset;
      colOffsets[i] := offsets[i] + colOffset;
      i := i + 1;
    }
  }

  /**
   * Gathering into one store over one communicator (a row or a column):
   * the size information is summed, the lengths, gids and shifted offsets
   * of the members are gathered at the displacements `partial_sum` computes
   * from the gathered counts, and the byte buffers likewise.  The caller is
   * member `me` of the group and sends its own store and shifted offsets.
   */
  method GatherInto(store: SeqStore, send: StoreValue, myOffsets: seq<nat>, group: seq<StoreValue>, me: nat)
    requires AllSized(group) && me < |group| && group[me] == send && SizedAt(group, me)
    requires myOffsets == Shift(send.Offs(), ExscanAt(NumBytes(group), me))
    modifies store
    ensures store.Value() == Gathered(group)
  {
    var gathered := GatherValue(send, myOffsets, group, me);
    Install(store, gathered);
  }

  /** The gathers of the share, on fresh receive counts and displacements: they yield the gathered store. */
  method GatherValue(send: StoreValue, myOffsets: seq<nat>, group: seq<StoreValue>, me: nat) returns (gathered: StoreValue)
    requires AllSized(group) && me < |group| && group[me] == send && SizedAt(group, me)
    requires myOffsets == Shift(send.Offs(), ExscanAt(NumBytes(group), me))
    ensures gathered == Gathered(group)
  {
    var numbytes, numseqs, totbases := Sum(NumBytes(group)), Sum(NumSeqs(group)), Sum(TotBases(group));

    var dims := |group|;
    var recvcnts := new nat[dims];
    var displs := new nat[dims];
    var lengths, gids, offsets := GatherEntries(recvcnts, displs, send, myOffsets, group, me);
    var buf := GatherBytes(recvcnts, displs, send, group, me);

    gathered := StoreValue(buf, lengths, offsets, gids, numbytes, numseqs, totbases);
    GatheredFields(group, gathered);
  }

  /** The gathers of the per-entry arrays, counted by `numseqs`. */
  method GatherEntries(recvcnts: array<nat>, displs: array<nat>, send: StoreValue, myOffsets: seq<nat>,
                       group: seq<StoreValue>, me: nat)
      returns (lengths: seq<nat>, gids: seq<nat>, offsets: seq<nat>)
    requires recvcnts != displs && recvcnts.Length == |group| && displs.Length == |group|
    requires AllSized(group) && me < |group| && group[me] == send && SizedAt(group, me)
    requires myOffsets == Shift(send.Offs(), ExscanAt(NumBytes(group), me))
    modifies recvcnts, displs
    ensures lengths == Concat(LensOf(group))
    ensures gids == Concat(GidsOf(group))
    ensures offsets == Concat(ShiftedOffs(group))
  {
    GatherCounts(recvcnts, displs, NumSeqs(group), me, send.numseqs);
    lengths, gids, offsets := GatherArrays(send, myOffsets, group, me, recvcnts[..], displs[..]);
  }

  /** The gather of the buffers, counted by `numbytes`, on the same count arrays. */
  method GatherBytes(recvcnts: array<nat>, displs: array<nat>, send: StoreValue, group: seq<StoreValue>, me: nat)
      returns (buf: seq<bv8>)
    requires recvcnts != displs && recvcnts.Length == |group| && displs.Length == |group|
    requires AllSized(group) && me < |group| && group[me] == send
    modifies recvcnts, displs
    ensures buf == Concat(Bufs(group))
  {
    GatherCounts(recvcnts, displs, NumBytes(group), me, send.numbytes);
    buf := GatherBuf(send, group, me, recvcnts[..], displs[..]);
  }

  /** Writes the fields of a store. */
  method Install(store: SeqStore, v: StoreValue)
    modifies store
    ensures store.Value() == v
  {
    store.buf, store.lengths, store.offsets, store.gids := v.buf, v.lengths, v.offsets, v.gids;
    store.numbytes, store.numseqs, store.totbases := v.numbytes, v.numseqs, v.totbases;
  }

  /** A store whose fields are the gathered ones is the gathered store. */
  lemma GatheredFields(group: seq<StoreValue>, v: StoreValue)
    requires AllSized(group)
    requires v.buf == Concat(Bufs(group)) && v.lengths == Concat(LensOf(group))
    requires v.offsets == Concat(ShiftedOffs(group)) && v.gids == Concat(GidsOf(group))
    requires v.numbytes == Sum(NumBytes(group)) && v.numseqs == Sum(NumSeqs(group))
    requires v.totbases == Sum(TotBases(group))
    ensures v == Gathered(group)
  {
  }

  /**
   * The receive counts and displacements of a gather: the caller's own
   * count is put in place, the counts are gathered and `partial_sum` turns
   * them into displacements.
   */
  method GatherCounts(recvcnts: array<nat>, displs: array<nat>, all: seq<nat>, me: nat, mine: nat)
    requires recvcnts != displs && recvcnts.Length == |all| && displs.Length == |all|
    requires me < |all| && all[me] == mine
    modifies recvcnts, displs
    ensures recvcnts[..] == all && displs[..] == ExclusiveScan(all)
  {
    recvcnts[me] := mine;
    Allgather(recvcnts, all, me);
    PartialSum(displs, recvcnts, |all|);
    assert recvcnts[..|all|] == recvcnts[..] && displs[..|all|] == displs[..];
  }

  /** The byte gather of the share: the caller sends its buffer, and receives every member's in member order. */
  method GatherBuf(send: StoreValue, group: seq<StoreValue>, me: nat, recvcnts: seq<nat>, displs: seq<nat>)
      returns (buf: seq<bv8>)
    requires AllSized(group) && me < |group| && group[me] == send
    requires recvcnts == NumBytes(group) && displs == ExclusiveScan(recvcnts)
    ensures buf == Concat(Bufs(group))
  {
    var bufParts := Bufs(group)[me := send.buf];
    Own(Bufs(group), me, send.buf);
    forall k | 0 <= k < |group|
      ensures |bufParts[k]| == recvcnts[k]
    {
      assert SizedAt(group, k);
    }
    assert Lengths(bufParts) == recvcnts;
    buf := Allgatherv(bufParts, recvcnts, displs);
  }

  /** Putting back the piece a member already holds changes nothing. */
  /** Every member sends `numseqs` lengths, gids and offsets. */
  lemma ArraysCounted(g: seq<StoreValue>)
    requires AllSized(g)
    ensures Lengths(LensOf(g)) == NumSeqs(g)
    ensures Lengths(GidsOf(g)) == NumSeqs(g)
    ensures Lengths(ShiftedOffs(g)) == NumSeqs(g)
  {
    var ls, gs, os := LensOf(g), GidsOf(g), ShiftedOffs(g);
    forall k | 0 <= k < |g|
      ensures Lengths(ls)[k] == Lengths(gs)[k] == Lengths(os)[k] == NumSeqs(g)[k]
    {
      assert SizedAt(g, k);
    }
  }

  lemma Own<T>(parts: seq<T>, me: nat, mine: T)
    requires me < |parts| && parts[me] == mine
    ensures parts[me := mine] == parts
  {
  }

  /**
   * The three array gathers of the share: the caller sends the first
   * `numseqs` lengths and gids of its store and its shifted offsets, and
   * receives every member's in member order.
   */
  method GatherArrays(send: StoreValue, myOffsets: seq<nat>, group: seq<StoreValue>, me: nat,
                      recvcnts: seq<nat>, displs: seq<nat>)
      returns (lengths: seq<nat>, gids: seq<nat>, offsets: seq<nat>)
    requires AllSized(group) && me < |group| && group[me] == send && SizedAt(group, me)
    requires myOffsets == Shift(send.Offs(), ExscanAt(NumBytes(group), me))
    requires recvcnts == NumSeqs(group) && displs == ExclusiveScan(recvcnts)
    ensures lengths == Concat(LensOf(group))
    ensures gids == Concat(GidsOf(group))
    ensures offsets == Concat(ShiftedOffs(group))
  {
    var sendcnt := send.numseqs;
    var lensParts := LensOf(group)[me := send.lengths[..sendcnt]];
    var gidsParts := GidsOf(group)[me := send.gids[..sendcnt]];
    var offsParts := ShiftedOffs(group)[me := myOffsets];
    Own(LensOf(group), me, send.lengths[..sendcnt]);
    Own(GidsOf(group), me, send.gids[..sendcnt]);
    Own(ShiftedOffs(group), me, myOffsets);
    ArraysCounted(group);
    lengths := Allgatherv(lensParts, recvcnts, displs);
    gids := Allgatherv(gidsParts, recvcnts, displs);
    offsets := Allgatherv(offsParts, recvcnts, displs);
  }

  /**
   * `elba_seq_store_share` on the process at (gridrow, gridcol), whose row
   * holds the stores `rowGroup` (in column order) and whose column holds
   * `colGroup` (in row order): a NULL argument fails with -1; otherwise the
   * row store is what the row gathers and the column store what the column
   * gathers, each a valid store reading back every member's entries in
   * member order.  The counts and displacements MPI takes as `int` must fit.
   */
  method Share(send: StoreValue, rowStore: SeqStore?, colStore: SeqStore?, grid: Grid?,
               rowGroup: seq<StoreValue>, colGroup: seq<StoreValue>) returns (rc: int)
    requires rowStore != null && colStore != null && grid != null ==>
               rowStore != colStore
               && 0 <= grid.gridrow < grid.dims && 0 <= grid.gridcol < grid.dims
               && |rowGroup| == grid.dims && |colGroup| == grid.dims
               && rowGroup[grid.gridcol] == send && colGroup[grid.gridrow] == send
               && AllValid(rowGroup) && AllValid(colGroup)
               && Sum(NumSeqs(rowGroup)) <= INT_MAX && Sum(NumBytes(rowGroup)) <= INT_MAX
               && Sum(NumSeqs(colGroup)) <= INT_MAX && Sum(NumBytes(colGroup)) <= INT_MAX
    modifies if rowStore == null then {} else {rowStore}
    modifies if colStore == null then {} else {colStore}
    ensures rc == -1 <==> rowStore == null || colStore == null || grid == null
    ensures rc != -1 ==> rc == 0
    ensures rc == 0 ==> rowStore.Value() == Gathered(rowGroup) && colStore.Value() == Gathered(colGroup)
    ensures rc == 0 ==> rowStore.Value().Valid() && rowStore.Value().Entries() == Concat(EntriesOf(rowGroup))
    ensures rc == 0 ==> colStore.Value().Valid() && colStore.Value().Entries() == Concat(EntriesOf(colGroup))
  {
    if rowStore == null || colStore == null || grid == null {
      return -1;
    }
    var sendcnt := send.numseqs;
    var rowOffset := if grid.gridcol == 0 then 0 else ExscanAt(NumBytes(rowGroup), grid.gridcol);
    var colOffset := if grid.gridrow == 0 then 0 else ExscanAt(NumBytes(colGroup), grid.gridrow);
    assert ValidAt(rowGroup, grid.gridcol);
    var rowOffsets, colOffsets := ShiftOffsets(send.offsets, sendcnt, rowOffset, colOffset);
    GatherInto(rowStore, send, rowOffsets[..], rowGroup, grid.gridcol);
    GatherInto(colStore, send, colOffsets[..], colGroup, grid.gridrow);
    GatheredValid(rowGroup);
    GatheredValid(colGroup);
    rc := 0;
  }
}
