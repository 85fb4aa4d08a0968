/**
 * The earlier packed sequence store `seq_store_t` (seq_store.c,
 * seq_store.h): the same 2-bit buffer with parallel `lengths` and
 * `offsets` arrays as `elba_seq_store_t`, but without global ids, with the
 * capacity `avail` kept in the struct, and without the closing trim of the
 * read.  Its functions return -1 on a NULL argument.
 */
module LegacySeqStore {
  import opened Collectives
  import opened Nt4Code
  import opened PackedLayout
  import opened FaiFormat
  import opened FastaChunk
  import opened Size
  import opened Mem
  import ElbaSeqStore

  /** The fields of a `seq_store_t`, as a value. */
  datatype LegacyValue = LegacyValue(buf: seq<bv8>, lengths: seq<nat>, offsets: seq<nat>, avail: nat,
                                     numbytes: nat, numseqs: nat, totbases: nat)
  {
    /** Both arrays are `avail` entries long, enough for the `numseqs` entries. */
    predicate Sized()
    {
      |lengths| == avail && |offsets| == avail && numseqs <= avail
    }

    function Lens(): seq<nat>
      requires Sized()
    {
      lengths[..numseqs]
    }

    function Offs(): seq<nat>
      requires Sized()
    {
      offsets[..numseqs]
    }

    /** The entries lie end to end in the buffer, which is `numbytes` long; `totbases` counts their bases. */
    predicate Valid()
    {
      Sized() && |buf| == numbytes && Laid(buf, Lens(), Offs()) && totbases == Sum(Lens())
    }

    /** What every stored sequence reads back as, in index order. */
    function Entries(): (es: seq<seq<char>>)
      requires Valid()
      ensures |es| == numseqs
    {
      PackedLayout.Entries(buf, Lens(), Offs())
    }
  }

  /** `(seq_store_t){0}`. */
  const ZEROED: LegacyValue := LegacyValue([], [], [], 0, 0, 0, 0)

  /** The zeroed store is a valid store without entries. */
  lemma ZeroedValid()
    ensures ZEROED.Valid() && ZEROED.Entries() == []
  {
    LaidEmpty();
    assert ZEROED.Lens() == [] && ZEROED.Offs() == [];
  }

  /** A `seq_store_t` that the functions below fill in and free in place. */
  class LegacyStore {
    var buf: seq<bv8>
    var lengths: seq<nat>
    var offsets: seq<nat>
    var avail: nat
    var numbytes: nat
    var numseqs: nat
    var totbases: nat

    /** A zeroed store. */
    constructor ()
      ensures Value() == ZEROED
    {
      buf, lengths, offsets := [], [], [];
      avail, numbytes, numseqs, totbases := 0, 0, 0, 0;
    }

    /** The fields, as a value. */
    function Value(): LegacyValue
      reads this
    {
      LegacyValue(buf, lengths, offsets, avail, numbytes, numseqs, totbases)
    }
  }

  /** A store w that is v with one more sequence s pushed. */
  lemma PushedValue(v: LegacyValue, w: LegacyValue, s: seq<char>)
    requires v.Valid() && w.Sized()
    requires w.buf == v.buf + Pack(s) && w.numbytes == v.numbytes + Bytes(|s|)
    requires w.numseqs == v.numseqs + 1 && w.totbases == v.totbases + |s|
    requires w.Lens() == v.Lens() + [|s|] && w.Offs() == v.Offs() + [v.numbytes]
    ensures w.Valid()
    ensures w.Entries() == v.Entries() + [Decoded(s)]
  {
    LaidPush(v.buf, v.Lens(), v.Offs(), s);
    SumAppend(v.Lens(), [|s|]);
    assert [|s|][..0] == [];
  }

  /**
   * `push`: the packed bytes of s are appended to the buffer, and its
   * length and offset (the old `numbytes`) are written at index `numseqs`
   * of the arrays, which first grow to a power of two of at least
   * numseqs + 1 entries when `numseqs + 1 >= avail`.  Earlier bytes and
   * entries are unchanged.
   */
  method Push(store: LegacyStore, s: seq<char>)
    requires store.Value().Valid()
    modifies store
    ensures store.avail == if old(store.numseqs) + 1 >= old(store.avail) then CeilPow2(old(store.numseqs) + 1) else old(store.avail)
    ensures store.buf == old(store.buf) + Pack(s)
    ensures store.numbytes == old(store.numbytes) + Bytes(|s|)
    ensures store.numseqs == old(store.numseqs) + 1
    ensures store.totbases == old(store.totbases) + |s|
    ensures store.Value().Valid()
    ensures store.Value().Lens() == old(store.Value().Lens()) + [|s|]
    ensures store.Value().Offs() == old(store.Value().Offs()) + [old(store.numbytes)]
    ensures store.Value().Entries() == old(store.Value().Entries()) + [Decoded(s)]
  {
    ghost var v := store.Value();
    var n := (|s| + 3) / 4;
    var offset := store.numbytes;
    store.buf := AppendPacked(store.buf, s);
    store.totbases := store.totbases + |s|;
    Grow(store);
    var k := store.numseqs;
    ElbaSeqStore.SetAfter(store.lengths, k, |s|);
    ElbaSeqStore.SetAfter(store.offsets, k, offset);
    store.lengths, store.offsets := store.lengths[k := |s|], store.offsets[k := offset];
    store.numseqs, store.numbytes := k + 1, store.numbytes + n;
    PushedValue(v, store.Value(), s);
  }

  /**
   * The growth step of `push`: when `numseqs + 1 >= avail`, `avail`
   * becomes `up_size_t(numseqs + 1)` and both arrays are reallocated to
   * that many entries, keeping their first `numseqs`.
   */
  method Grow(store: LegacyStore)
    requires store.Value().Sized()
    modifies store
    ensures store.avail == if store.numseqs + 1 >= old(store.avail) then CeilPow2(store.numseqs + 1) else old(store.avail)
    ensures store.numseqs < store.avail
    ensures |store.lengths| == store.avail && |store.offsets| == store.avail
    ensures store.lengths[..store.numseqs] == old(store.lengths[..store.numseqs])
    ensures store.offsets[..store.numseqs] == old(store.offsets[..store.numseqs])
    ensures store.buf == old(store.buf) && store.numseqs == old(store.numseqs)
    ensures store.numbytes == old(store.numbytes) && store.totbases == old(store.totbases)
  {
    if store.numseqs + 1 >= store.avail {
      store.avail := CeilPow2(store.numseqs + 1);
      store.lengths := Resized(store.lengths, store.avail, 0);
      store.offsets := Resized(store.offsets, store.avail, 0);
    }
  }

  // ---------------------------------------------------------------------
  // Reading a rank's sequences

  /**
   * `seq_store_read` on a rank holding `records` of the index: a NULL store
   * returns -1; otherwise the store is zeroed and then holds exactly the
   * rank's sequences, record i unwrapped from the file and packed, in index
   * order, and the read returns 0.  The arrays keep their capacity `avail`.
   */
  method Read(store: LegacyStore?, file: seq<char>, records: seq<FaiRecord>) returns (rc: int)
    requires store != null ==>
               Readable(records, |file|) && SpanEnd(records, |file|) - SpanStart(records) <= INT_MAX
    modifies if store == null then {} else {store}
    ensures rc == -1 <==> store == null
    ensures rc != -1 ==> rc == 0
    ensures rc == 0 ==>
              store.Value().Valid()
              && store.numseqs == |records|
              && store.Value().Entries() == ElbaSeqStore.ReadEntries(file, records)
              && store.Value().Lens() == ElbaSeqStore.RecordLengths(records)
  {
    if store == null {
      return -1;
    }
    store.buf, store.lengths, store.offsets := [], [], [];
    store.avail, store.numbytes, store.numseqs, store.totbases := 0, 0, 0, 0;

    var startpos := records[0].pos;
    var last := records[|records| - 1];
    var endpos := last.pos + last.len + last.len / last.bases;
    endpos := if endpos < |file| then endpos else |file|;
    SpanCovers(records, |file|, 0);
    var chunk := file[startpos .. endpos];
    assert chunk == Chunk(file, records);

    ReadRecords(store, file, records, chunk);
    rc := 0;
  }

  /** The loop of `seq_store_read`: every record is unwrapped from the chunk and pushed. */
  method ReadRecords(store: LegacyStore, file: seq<char>, records: seq<FaiRecord>, chunk: seq<char>)
    requires Readable(records, |file|) && chunk == Chunk(file, records)
    requires store.Value() == ZEROED
    modifies store
    ensures store.Value().Valid() && store.numseqs == |records|
    ensures store.Value().Entries() == ElbaSeqStore.ReadEntries(file, records)
    ensures store.Value().Lens() == ElbaSeqStore.RecordLengths(records)
  {
    ZeroedValid();
    var maxlen := MaxRecordLength(records);
    var seqbuf := new char[maxlen];

    var i := 0;
    while i < |records|
      invariant i <= |records|
      invariant store.Value().Valid() && store.numseqs == i
      invariant store.Value().Entries() == ElbaSeqStore.ReadEntries(file, records)[..i]
      invariant store.Value().Lens() == ElbaSeqStore.RecordLengths(records)[..i]
    {
      ReadRecord(store, file, records, chunk, i, seqbuf);
      i := i + 1;
    }
    assert ElbaSeqStore.RecordLengths(records)[..i] == ElbaSeqStore.RecordLengths(records);
    assert ElbaSeqStore.ReadEntries(file, records)[..i] == ElbaSeqStore.ReadEntries(file, records);
  }

  /** One turn of the read loop: record i is unwrapped into `seqbuf` and pushed. */
  method ReadRecord(store: LegacyStore, file: seq<char>, records: seq<FaiRecord>, chunk: seq<char>,
                    i: nat, seqbuf: array<char>)
    requires Readable(records, |file|) && chunk == Chunk(file, records)
    requires i < |records| && records[i].len <= seqbuf.Length
    requires store.Value().Valid() && store.numseqs == i
    requires store.Value().Entries() == ElbaSeqStore.ReadEntries(file, records)[..i]
    requires store.Value().Lens() == ElbaSeqStore.RecordLengths(records)[..i]
    modifies store, seqbuf
    ensures store.Value().Valid() && store.numseqs == i + 1
    ensures store.Value().Entries() == ElbaSeqStore.ReadEntries(file, records)[..i + 1]
    ensures store.Value().Lens() == ElbaSeqStore.RecordLengths(records)[..i + 1]
  {
    var r := records[i];
    ChunkBases(file, records, i);
    Unwrap(chunk, r.pos - records[0].pos, r, seqbuf);
    Push(store, seqbuf[..r.len]);
    ElbaSeqStore.ReadStep(file, records, i, 0, seqbuf[..r.len]);
  }

  // ---------------------------------------------------------------------
  // Getting a sequence back, and freeing the store

  /**
   * `seq_store_get`: a NULL result argument returns -1; otherwise the result
   * is sequence `id` read back, NUL-terminated, and the return value is its
   * length capped at INT_MAX.
   */
  method Get(store: LegacyValue, id: nat, hasSeq: bool) returns (rc: int, s: seq<char>)
    requires store.Valid() && id < store.numseqs
    ensures rc == -1 <==> !hasSeq
    ensures hasSeq ==> rc == SafeInt(|store.Entries()[id]|) && rc == SafeInt(store.lengths[id])
    ensures hasSeq ==> s == store.Entries()[id] + ['\0']
  {
    if !hasSeq {
      return -1, [];
    }
    var len := store.lengths[id];
    var offset := store.offsets[id];
    LaidFits(store.buf, store.Lens(), store.Offs(), id);
    var out := UnpackInto(store.buf, offset, len);
    s := out[..];
    assert s == out[..len] + [out[len]];
    rc := if len <= INT_MAX then len else INT_MAX;
  }

  /** `seq_store_free`: a NULL store returns -1; otherwise the store is zeroed and 0 returned. */
  method Free(store: LegacyStore?) returns (rc: int)
    modifies if store == null then {} else {store}
    ensures rc == -1 <==> store == null
    ensures rc != -1 ==> rc == 0 && store.Value() == ZEROED
  {
    if store == null {
      return -1;
    }
    store.buf, store.lengths, store.offsets := [], [], [];
    store.avail, store.numbytes, store.numseqs, store.totbases := 0, 0, 0, 0;
    rc := 0;
  }
}
