/**
 * The packed sequence store `elba_seq_store_t` (src/elba_seq_store.c,
 * inc/elba_seq_store.h): a byte buffer holding every sequence 2 bits per
 * base, and three parallel arrays saying, for each sequence, its length,
 * the offset of its first byte in the buffer and its global id.
 *
 * The arrays are `realloc`ed to a capacity `avail` while the store is
 * filled; only their first `numseqs` entries mean anything.  A store is
 * `Valid` when its entries are laid end to end in the buffer (see
 * PackedLayout) and `totbases` is the sum of their lengths.
 */
module ElbaSeqStore {
  import opened Wrappers
  import opened ElbaError
  import opened Collectives
  import opened Nt4Code
  import opened PackedLayout
  import opened FaiFormat
  import opened FastaChunk
  import opened Size
  import opened Mem

  /** The fields of an `elba_seq_store_t`, as a value. */
  datatype StoreValue = StoreValue(buf: seq<bv8>, lengths: seq<nat>, offsets: seq<nat>, gids: seq<nat>,
                                   numbytes: nat, numseqs: nat, totbases: nat)
  {
    /** The three arrays have room for the `numseqs` entries. */
    predicate Sized()
    {
      numseqs <= |lengths| && numseqs <= |offsets| && numseqs <= |gids|
    }

    /** The lengths of the stored sequences. */
    function Lens(): seq<nat>
      requires Sized()
    {
      lengths[..numseqs]
    }

    /** The offsets of the stored sequences. */
    function Offs(): seq<nat>
      requires Sized()
    {
      offsets[..numseqs]
    }

    /** The global ids of the stored sequences. */
    function Gids(): seq<nat>
      requires Sized()
    {
      gids[..numseqs]
    }

    /** The entries lie end to end in the buffer, which is `numbytes` long; `totbases` counts their bases. */
    predicate Valid()
    {
      Sized() && |buf| == numbytes && Laid(buf, Lens(), Offs()) && totbases == Sum(Lens())
    }

    /** What every stored sequence reads back as, in local-id order. */
    function Entries(): (es: seq<seq<char>>)
      requires Valid()
      ensures |es| == numseqs
    {
      PackedLayout.Entries(buf, Lens(), Offs())
    }
  }

  /** `(elba_seq_store_t){0}`. */
  const EMPTY: StoreValue := StoreValue([], [], [], [], 0, 0, 0)

  /** The zeroed store is a valid store without entries. */
  lemma EmptyValid()
    ensures EMPTY.Valid() && EMPTY.Entries() == []
  {
    LaidEmpty();
    assert EMPTY.Lens() == [] && EMPTY.Offs() == [];
  }

  /** An `elba_seq_store_t` that the functions below fill in and free in place. */
  class SeqStore {
    var buf: seq<bv8>
    var lengths: seq<nat>
    var offsets: seq<nat>
    var gids: seq<nat>
    var numbytes: nat
    var numseqs: nat
    var totbases: nat

    /** A zeroed store. */
    constructor ()
      ensures Value() == EMPTY
    {
      buf, lengths, offsets, gids := [], [], [], [];
      numbytes, numseqs, totbases := 0, 0, 0;
    }

    /** The fields, as a value. */
    function Value(): StoreValue
      reads this
    {
      StoreValue(buf, lengths, offsets, gids, numbytes, numseqs, totbases)
    }
  }

  /**
   * A store w that is v with one more sequence s of global id `id` pushed:
   * the packed bytes of s after v's buffer, and its length, offset and id
   * after v's.
   */
  lemma PushedValue(v: StoreValue, w: StoreValue, s: seq<char>, id: nat)
    requires v.Valid() && w.Sized()
    requires w.buf == v.buf + Pack(s) && w.numbytes == v.numbytes + Bytes(|s|)
    requires w.numseqs == v.numseqs + 1 && w.totbases == v.totbases + |s|
    requires w.Lens() == v.Lens() + [|s|] && w.Offs() == v.Offs() + [v.numbytes]
    ensures w.Valid()
    ensures w.Entries() == v.Entries() + [Decoded(s)]
  {
    LaidPush(v.buf, v.Lens(), v.Offs(), s);
    SumAppend(v.Lens(), [|s|]);
    assert [|s|][..0] == [];
  }

  /**
   * `push`: the packed bytes of s are appended to the buffer, and its
   * length, offset (the old `numbytes`) and id are written at index
   * `numseqs` of the arrays, which are first grown to next_pow2(numseqs + 1)
   * entries when `numseqs + 1 >= avail`.  Earlier bytes and entries are
   * unchanged.
   */
  method Push(store: SeqStore, s: seq<char>, avail: nat, id: nat) returns (newAvail: nat)
    requires store.Value().Valid()
    requires |store.lengths| == avail && |store.offsets| == avail && |store.gids| == avail
    modifies store
    ensures newAvail == if old(store.numseqs) + 1 >= avail then CeilPow2(old(store.numseqs) + 1) else avail
    ensures old(store.numseqs) < newAvail
    ensures |store.lengths| == newAvail && |store.offsets| == newAvail && |store.gids| == newAvail
    ensures store.buf == old(store.buf) + Pack(s)
    ensures store.numbytes == old(store.numbytes) + Bytes(|s|)
    ensures store.numseqs == old(store.numseqs) + 1
    ensures store.totbases == old(store.totbases) + |s|
    ensures store.Value().Valid()
    ensures store.Value().Lens() == old(store.Value().Lens()) + [|s|]
    ensures store.Value().Offs() == old(store.Value().Offs()) + [old(store.numbytes)]
    ensures store.Value().Gids() == old(store.Value().Gids()) + [id]
    ensures store.Value().Entries() == old(store.Value().Entries()) + [Decoded(s)]
  {
    ghost var v := store.Value();
    var n := (|s| + 3) / 4;
    var offset := store.numbytes;
    store.buf := AppendPacked(store.buf, s);
    store.totbases := store.totbases + |s|;
    newAvail := Grow(store, avail);
    var k := store.numseqs;
    SetAfter(store.lengths, k, |s|);
    SetAfter(store.offsets, k, offset);
    SetAfter(store.gids, k, id);
    store.gids, store.lengths, store.offsets := store.gids[k := id], store.lengths[k := |s|], store.offsets[k := offset];
    store.numseqs, store.numbytes := k + 1, store.numbytes + n;
    PushedValue(v, store.Value(), s, id);
  }

  /**
   * The growth step of `push`: when `numseqs + 1 >= avail` the three arrays
   * are reallocated to next_pow2(numseqs + 1) entries, keeping their first
   * `numseqs`; the new entries are zero.
   */
  method Grow(store: SeqStore, avail: nat) returns (newAvail: nat)
    requires store.numseqs <= avail
    requires |store.lengths| == avail && |store.offsets| == avail && |store.gids| == avail
    modifies store
    ensures newAvail == if store.numseqs + 1 >= avail then CeilPow2(store.numseqs + 1) else avail
    ensures store.numseqs < newAvail
    ensures |store.lengths| == newAvail && |store.offsets| == newAvail && |store.gids| == newAvail
    ensures store.lengths[..store.numseqs] == old(store.lengths[..store.numseqs])
    ensures store.offsets[..store.numseqs] == old(store.offsets[..store.numseqs])
    ensures store.gids[..store.numseqs] == old(store.gids[..store.numseqs])
    ensures store.buf == old(store.buf) && store.numseqs == old(store.numseqs)
    ensures store.numbytes == old(store.numbytes) && store.totbases == old(store.totbases)
  {
    newAvail := avail;
    if store.numseqs + 1 >= newAvail {
      newAvail := CeilPow2(store.numseqs + 1);
      store.lengths := Resized(store.lengths, newAvail, 0);
      store.offsets := Resized(store.offsets, newAvail, 0);
      store.gids := Resized(store.gids, newAvail, 0);
    }
  }

  /** Writing x at index k and keeping the first k + 1 entries gives the first k entries and then x. */
  lemma SetAfter(xs: seq<nat>, k: nat, x: nat)
    requires k < |xs|
    ensures xs[k := x][..k + 1] == xs[..k] + [x]
  {
  }

  // ---------------------------------------------------------------------
  // Reading a rank's sequences

  /** What a rank's store holds after the read: every record unwrapped from the file and packed. */
  function ReadEntries(file: seq<char>, records: seq<FaiRecord>): (es: seq<seq<char>>)
    requires Readable(records, |file|)
    ensures |es| == |records|
  {
    seq(|records|, i requires 0 <= i < |records| => Decoded(FileBases(file, records)[i]))
  }

  /** The `len` fields of the records. */
  function RecordLengths(records: seq<FaiRecord>): (ls: seq<nat>)
    ensures |ls| == |records|
    ensures forall i :: 0 <= i < |records| ==> ls[i] == records[i].len
  {
    seq(|records|, i requires 0 <= i < |records| => records[i].len)
  }

  /** The global ids first, first + 1, ..., first + n - 1. */
  function GidRange(first: nat, n: nat): (gs: seq<nat>)
    ensures |gs| == n
  {
    seq(n, i requires 0 <= i < n => first + i)
  }

  /**
   * `elba_seq_store_read` on a rank holding `records` of the index, the
   * ranks of the world holding `counts` records each: a NULL store fails;
   * otherwise the store holds exactly the rank's sequences, record i
   * unwrapped from the file and packed, with global id i plus the number of
   * records on lower ranks, and the arrays are trimmed to `numseqs` entries.
   */
  method Read(store: SeqStore?, file: seq<char>, records: seq<FaiRecord>, counts: seq<nat>, rank: nat)
    returns (rc: int)
    requires store != null ==>
               Readable(records, |file|) && rank < |counts| && counts[rank] == |records|
               && SpanEnd(records, |file|) - SpanStart(records) <= INT_MAX
    modifies if store == null then {} else {store}
    ensures rc == FAILURE <==> store == null
    ensures rc == SUCCESS ==>
              store.Value().Valid()
              && store.numseqs == |records|
              && |store.lengths| == |records| && |store.offsets| == |records| && |store.gids| == |records|
              && store.Value().Entries() == ReadEntries(file, records)
              && store.lengths == RecordLengths(records)
              && store.gids == GidRange(ExscanAt(counts, rank), |records|)
  {
    if store == null {
      return FAILURE;
    }
    store.buf, store.lengths, store.offsets, store.gids := [], [], [], [];
    store.numbytes, store.numseqs, store.totbases := 0, 0, 0;

    var startpos := records[0].pos;
    var last := records[|records| - 1];
    var endpos := last.pos + last.len + last.len / last.bases;
    endpos := if endpos < |file| then endpos else |file|;
    SpanCovers(records, |file|, 0);
    var chunk := file[startpos .. endpos];
    assert chunk == Chunk(file, records);

    var offset := ExscanAt(counts, rank);
    ReadRecords(store, file, records, chunk, offset);
    Trim(store);
    rc := SUCCESS;
  }

  /**
   * The loop of `elba_seq_store_read`: every record is unwrapped from the
   * rank's chunk of the file into a buffer as long as the longest record, and
   * pushed onto the (zeroed) store with global id `first` plus its index.
   */
  method ReadRecords(store: SeqStore, file: seq<char>, records: seq<FaiRecord>, chunk: seq<char>, first: nat)
    requires Readable(records, |file|) && chunk == Chunk(file, records)
    requires store.Value() == EMPTY
    modifies store
    ensures store.Value().Valid() && store.numseqs == |records|
    ensures store.Value().Entries() == ReadEntries(file, records)
    ensures store.Value().Lens() == RecordLengths(records)
    ensures store.Value().Gids() == GidRange(first, |records|)
  {
    EmptyValid();
    var avail: nat := 0;
    var maxlen := MaxRecordLength(records);
    var seqbuf := new char[maxlen];

    var i := 0;
    while i < |records|
      invariant i <= |records|
      invariant store.Value().Valid() && store.numseqs == i
      invariant |store.lengths| == avail && |store.offsets| == avail && |store.gids| == avail
      invariant store.Value().Entries() == ReadEntries(file, records)[..i]
      invariant store.Value().Lens() == RecordLengths(records)[..i]
      invariant store.Value().Gids() == GidRange(first, i)
    {
      avail := ReadRecord(store, file, records, chunk, first, i, seqbuf, avail);
      i := i + 1;
    }
    assert RecordLengths(records)[..i] == RecordLengths(records);
    assert ReadEntries(file, records)[..i] == ReadEntries(file, records);
  }

  /** One turn of the read loop: record i is unwrapped into `seqbuf` and pushed with global id `first + i`. */
  method ReadRecord(store: SeqStore, file: seq<char>, records: seq<FaiRecord>, chunk: seq<char>, first: nat,
                    i: nat, seqbuf: array<char>, avail: nat) returns (newAvail: nat)
    requires Readable(records, |file|) && chunk == Chunk(file, records)
    requires i < |records| && records[i].len <= seqbuf.Length
    requires store.Value().Valid() && store.numseqs == i
    requires |store.lengths| == avail && |store.offsets| == avail && |store.gids| == avail
    requires store.Value().Entries() == ReadEntries(file, records)[..i]
    requires store.Value().Lens() == RecordLengths(records)[..i]
    requires store.Value().Gids() == GidRange(first, i)
    modifies store, seqbuf
    ensures store.Value().Valid() && store.numseqs == i + 1
    ensures |store.lengths| == newAvail && |store.offsets| == newAvail && |store.gids| == newAvail
    ensures store.Value().Entries() == ReadEntries(file, records)[..i + 1]
    ensures store.Value().Lens() == RecordLengths(records)[..i + 1]
    ensures store.Value().Gids() == GidRange(first, i + 1)
  {
    var r := records[i];
    ChunkBases(file, records, i);
    Unwrap(chunk, r.pos - records[0].pos, r, seqbuf);
    var bases := seqbuf[..r.len];
    ReadStep(file, records, i, first, bases);
    newAvail := Push(store, bases, avail, i + first);
  }

  /** The closing `realloc`s of `elba_seq_store_read`: the arrays shrink to `numseqs` entries, which keep their values. */
  method Trim(store: SeqStore)
    requires store.Value().Valid()
    modifies store
    ensures store.Value().Valid()
    ensures |store.lengths| == store.numseqs && |store.offsets| == store.numseqs && |store.gids| == store.numseqs
    ensures store.lengths == old(store.Value().Lens()) && store.gids == old(store.Value().Gids())
    ensures store.offsets == old(store.Value().Offs())
    ensures store.buf == old(store.buf) && store.numseqs == old(store.numseqs)
    ensures store.numbytes == old(store.numbytes) && store.totbases == old(store.totbases)
    ensures store.Value().Entries() == old(store.Value().Entries())
  {
    store.lengths := Resized(store.lengths, store.numseqs, 0);
    store.offsets := Resized(store.offsets, store.numseqs, 0);
    store.gids := Resized(store.gids, store.numseqs, 0);
    assert store.lengths[..store.numseqs] == store.lengths;
    assert store.offsets[..store.numseqs] == store.offsets;
  }

  /** One turn of the read loop: the unwrapped bases of record i extend every prefix by one. */
  lemma ReadStep(file: seq<char>, records: seq<FaiRecord>, i: nat, offset: nat, bases: seq<char>)
    requires Readable(records, |file|) && i < |records|
    requires SpanStart(records) <= records[i].pos
    requires records[i].pos - SpanStart(records) + Extent(records[i]) <= |Chunk(file, records)|
    requires bases == Unwrapped(Chunk(file, records), records[i].pos - SpanStart(records), records[i].len, records[i].bases)
    ensures |bases| == records[i].len
    ensures ReadEntries(file, records)[..i + 1] == ReadEntries(file, records)[..i] + [Decoded(bases)]
    ensures RecordLengths(records)[..i + 1] == RecordLengths(records)[..i] + [|bases|]
    ensures GidRange(offset, i + 1) == GidRange(offset, i) + [i + offset]
  {
    ChunkBases(file, records, i);
    assert FileBases(file, records)[i] == bases;
  }

  // ---------------------------------------------------------------------
  // Getting a sequence back, and freeing the store

  /**
   * `elba_seq_store_get`: a NULL result argument fails; otherwise the global
   * id is written when asked for and the result is sequence `lid` read back,
   * NUL-terminated.
   */
  method Get(store: StoreValue, lid: nat, hasGid: bool, hasSeq: bool) returns (rc: int, gid: Option<nat>, s: seq<char>)
    requires store.Valid() && lid < store.numseqs
    ensures rc == FAILURE <==> !hasSeq
    ensures rc != FAILURE ==> rc == SUCCESS
    ensures gid.Some? <==> hasSeq && hasGid
    ensures gid.Some? ==> gid.value == store.gids[lid]
    ensures rc == SUCCESS ==> s == store.Entries()[lid] + ['\0']
  {
    if !hasSeq {
      return FAILURE, None, [];
    }
    var len := store.lengths[lid];
    var offset := store.offsets[lid];
    gid := if hasGid then Some(store.gids[lid]) else None;
    LaidFits(store.buf, store.Lens(), store.Offs(), lid);
    var out := UnpackInto(store.buf, offset, len);
    s := out[..];
    assert s == out[..len] + [out[len]];
    rc := SUCCESS;
  }

  /** `elba_seq_store_free`: a NULL store fails; otherwise the store is zeroed. */
  method Free(store: SeqStore?) returns (rc: int)
    modifies if store == null then {} else {store}
    ensures rc == FAILURE <==> store == null
    ensures rc == SUCCESS ==> store.Value() == EMPTY
  {
    if store == null {
      return FAILURE;
    }
    store.buf, store.lengths, store.offsets, store.gids := [], [], [], [];
    store.numbytes, store.numseqs, store.totbases := 0, 0, 0;
    rc := SUCCESS;
  }
}
