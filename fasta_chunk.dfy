/**
 * Reading one rank's sequences out of a line-wrapped FASTA file, as
 * `elba_seq_store_read` (src/elba_seq_store.c) and `seq_store_read`
 * (seq_store.c) do it.
 *
 * A `.fai` record says where a sequence's first base sits (`pos`), how many
 * bases it has (`len`) and how many bases each line holds (`bases`); every
 * full line is followed by one line terminator byte.  Base j of the
 * sequence therefore sits at pos + j + j / bases.  A rank reads the span of
 * the file from its first record's `pos` to just past its last record and
 * unwraps every record out of that chunk.
 */
module FastaChunk {
  import opened FaiFormat
  import opened Mem

  /**
   * How many bytes len bases take from the first one to one past the last,
   * with a terminator after every full line of `bases`.
   */
  function Span(len: nat, bases: nat): nat
    requires bases > 0
    decreases len
  {
    if len <= bases then len else bases + 1 + Span(len - bases, bases)
  }

  /** How far past `pos` a record's bases reach. */
  function Extent(r: FaiRecord): nat
    requires r.bases > 0
  {
    Span(r.len, r.bases)
  }

  /**
   * The bases of a sequence whose first base sits at `start` of the text:
   * a full line, a skipped terminator, and the rest, until a line holds
   * what remains.
   */
  function Unwrapped(text: seq<char>, start: nat, len: nat, bases: nat): (s: seq<char>)
    requires bases > 0 && start + Span(len, bases) <= |text|
    ensures |s| == len
    decreases len
  {
    if len <= bases then text[start .. start + len]
    else text[start .. start + bases] + Unwrapped(text, start + bases + 1, len - bases, bases)
  }

  /** d * b exceeds d * a by at least d when a < b. */
  lemma MulGap(d: nat, a: nat, b: nat)
    requires a < b
    ensures d * a + d <= d * b
  {
    var k := b - a - 1;
    assert d * b == d * a + d + d * k;
  }

  /** Integer division is determined by quotient and remainder. */
  lemma DivUnique(x: nat, d: nat, q: nat, m: nat)
    requires d > 0 && m < d && x == d * q + m
    ensures x / d == q
  {
    var q', m' := x / d, x % d;
    assert x == d * q' + m';
    if q' < q {
      MulGap(d, q', q);
      assert false;
    } else if q < q' {
      MulGap(d, q, q');
      assert false;
    }
  }

  lemma DivStep(x: nat, d: nat)
    requires d > 0
    ensures (x + d) / d == x / d + 1
  {
    var q, m := x / d, x % d;
    assert x + d == d * (q + 1) + m;
    DivUnique(x + d, d, q + 1, m);
  }

  lemma DivMonotone(a: nat, b: nat, d: nat)
    requires a <= b && d > 0
    ensures a / d <= b / d
  {
    var qa, qb := a / d, b / d;
    assert d * qa <= a && b < d * qb + d;
    if qa > qb {
      MulGap(d, qb, qa);
      assert false;
    }
  }

  lemma DivSmall(x: nat, d: nat)
    requires x < d
    ensures x / d == 0
  {
    DivUnique(x, d, 0, x);
  }

  /** The closed form of the span: len + (len - 1) / bases bytes for a non-empty sequence. */
  lemma {:induction false} SpanClosedForm(len: nat, bases: nat)
    requires bases > 0
    ensures len == 0 ==> Span(len, bases) == 0
    ensures len > 0 ==> Span(len, bases) == len + (len - 1) / bases
    decreases len
  {
    if len > bases {
      SpanClosedForm(len - bases, bases);
      DivStep(len - bases - 1, bases);
    } else if len > 0 {
      DivSmall(len - 1, bases);
    }
  }

  /** Base j of the sequence sits at start + j + j / bases: one skipped terminator per full line before it. */
  lemma {:induction false} UnwrappedAt(text: seq<char>, start: nat, len: nat, bases: nat, j: nat)
    requires bases > 0 && start + Span(len, bases) <= |text| && j < len
    ensures start + j + j / bases < |text|
    ensures Unwrapped(text, start, len, bases)[j] == text[start + j + j / bases]
    decreases len
  {
    if len > bases {
      if j < bases {
        DivSmall(j, bases);
      } else {
        var rest := Unwrapped(text, start + bases + 1, len - bases, bases);
        assert Unwrapped(text, start, len, bases) == text[start .. start + bases] + rest;
        UnwrappedAt(text, start + bases + 1, len - bases, bases, j - bases);
        DivStep(j - bases, bases);
        assert (start + bases + 1) + (j - bases) + (j - bases) / bases == start + j + j / bases;
      }
    } else {
      DivSmall(j, bases);
    }
  }

  /** Unwrapping out of a slice of the text is unwrapping out of the text. */
  lemma {:induction false} UnwrappedSlice(text: seq<char>, lo: nat, hi: nat, start: nat, at: nat, len: nat, bases: nat)
    requires bases > 0 && lo <= hi <= |text| && start + Span(len, bases) <= hi - lo && at == lo + start
    ensures at + Span(len, bases) <= |text|
    ensures Unwrapped(text[lo .. hi], start, len, bases) == Unwrapped(text, at, len, bases)
    decreases len
  {
    var k := if len <= bases then len else bases;
    SliceOfSlice(text, lo, hi, start, start + k);
    if len > bases {
      UnwrappedSlice(text, lo, hi, start + bases + 1, at + bases + 1, len - bases, bases);
    }
  }

  /**
   * The unwrap loop: whole lines of `bases` characters, each followed by
   * one skipped terminator, then what remains of the last line, copied
   * with `memcpy` to the front of `seqbuf`.
   */
  method Unwrap(chunk: seq<char>, chunkpos: nat, r: FaiRecord, seqbuf: array<char>)
    requires r.bases > 0 && chunkpos + Extent(r) <= |chunk| && r.len <= seqbuf.Length
    modifies seqbuf
    ensures seqbuf[..r.len] == Unwrapped(chunk, chunkpos, r.len, r.bases)
  {
    var bases := r.bases;
    ghost var whole := Unwrapped(chunk, chunkpos, r.len, bases);
    var locpos: nat := 0;
    var remain: nat := r.len;
    var bufptr: nat := 0;
    while remain > 0
      invariant bufptr + remain == r.len
      invariant seqbuf[..bufptr] == whole[..bufptr]
      invariant remain > 0 ==> chunkpos + locpos + Span(remain, bases) <= |chunk|
                                && whole[bufptr..] == Unwrapped(chunk, chunkpos + locpos, remain, bases)
    {
      var cnt := if bases < remain then bases else remain;
      var next := locpos + cnt + 1;
      UnwrapAdvance(chunk, chunkpos + locpos, chunkpos + next, remain, bases, cnt, whole, bufptr);
      MemCpy(seqbuf, bufptr, chunk[chunkpos + locpos .. chunkpos + locpos + cnt]);
      bufptr := bufptr + cnt;
      remain := remain - cnt;
      locpos := next;
    }
  }

  /**
   * One turn of the unwrap loop: when the sequence from its k-th base on
   * is what remains at text position p, the loop copies the next line and
   * what remains after the terminator is the sequence from base k + cnt on.
   */
  lemma UnwrapAdvance(text: seq<char>, p: nat, next: nat, remain: nat, bases: nat, cnt: nat, whole: seq<char>, k: nat)
    requires bases > 0 && remain > 0 && p + Span(remain, bases) <= |text|
    requires cnt == (if bases < remain then bases else remain) && next == p + cnt + 1
    requires k <= |whole| && whole[k..] == Unwrapped(text, p, remain, bases)
    ensures p + cnt <= |text| && k + cnt <= |whole|
    ensures whole[..k + cnt] == whole[..k] + text[p .. p + cnt]
    ensures remain > cnt ==>
              next + Span(remain - cnt, bases) <= |text|
              && whole[k + cnt..] == Unwrapped(text, next, remain - cnt, bases)
    ensures remain == cnt ==> k + cnt == |whole|
  {
    if remain > bases {
      SliceStep(whole, k, text[p .. p + cnt], Unwrapped(text, next, remain - cnt, bases));
    } else {
      SliceStep(whole, k, text[p .. p + cnt], []);
    }
  }

  /** The loop of the readers that sizes `seqbuf`: the longest record, 0 for none. */
  method MaxRecordLength(records: seq<FaiRecord>) returns (maxlen: nat)
    ensures forall i :: 0 <= i < |records| ==> records[i].len <= maxlen
    ensures |records| == 0 ==> maxlen == 0
    ensures |records| > 0 ==> exists i :: 0 <= i < |records| && records[i].len == maxlen
  {
    maxlen := 0;
    var i := 0;
    while i < |records|
      invariant i <= |records|
      invariant forall k :: 0 <= k < i ==> records[k].len <= maxlen
      invariant i == 0 ==> maxlen == 0
      invariant i > 0 ==> exists k :: 0 <= k < i && records[k].len == maxlen
    {
      maxlen := if maxlen > records[i].len then maxlen else records[i].len;
      i := i + 1;
    }
  }

  // ---------------------------------------------------------------------
  // The span a rank reads

  /**
   * What the readers rely on about a rank's records: at least one, positive
   * line widths, sorted by position with no record reaching into the next,
   * and every record inside the file.
   */
  predicate Readable(records: seq<FaiRecord>, filesize: nat)
  {
    |records| > 0
    && (forall i :: 0 <= i < |records| ==> records[i].bases > 0)
    && (forall i :: 0 <= i < |records| ==> records[i].pos + Extent(records[i]) <= filesize)
    && (forall i, j :: 0 <= i < j < |records| ==> records[i].pos + Extent(records[i]) <= records[j].pos)
  }

  /** The first byte the chunk needs. */
  function SpanStart(records: seq<FaiRecord>): nat
    requires |records| > 0
  {
    records[0].pos
  }

  /** One past the last byte: last.pos + last.len + last.len / last.bases, cut at the end of the file. */
  function SpanEnd(records: seq<FaiRecord>, filesize: nat): nat
    requires |records| > 0 && records[|records| - 1].bases > 0
  {
    var last := records[|records| - 1];
    var endpos := last.pos + last.len + last.len / last.bases;
    if endpos < filesize then endpos else filesize
  }

  /** Every record's bases lie inside the span the rank reads. */
  lemma SpanCovers(records: seq<FaiRecord>, filesize: nat, i: nat)
    requires Readable(records, filesize) && i < |records|
    ensures SpanStart(records) <= records[i].pos
    ensures records[i].pos + Extent(records[i]) <= SpanEnd(records, filesize) <= filesize
  {
    var n := |records|;
    var last := records[n - 1];
    SpanClosedForm(last.len, last.bases);
    if last.len > 0 {
      DivMonotone(last.len - 1, last.len, last.bases);
    }
    if i > 0 {
      assert records[0].pos + Extent(records[0]) <= records[i].pos;
    }
    if i < n - 1 {
      assert records[i].pos + Extent(records[i]) <= last.pos;
    }
  }

  /** The bytes a rank reads: the file from the span's start to its end. */
  function Chunk(file: seq<char>, records: seq<FaiRecord>): (c: seq<char>)
    requires Readable(records, |file|)
    ensures |c| == SpanEnd(records, |file|) - SpanStart(records)
  {
    SpanCovers(records, |file|, 0);
    file[SpanStart(records) .. SpanEnd(records, |file|)]
  }

  /** Unwrapping a record out of the chunk is unwrapping it out of the file. */
  lemma ChunkBases(file: seq<char>, records: seq<FaiRecord>, i: nat)
    requires Readable(records, |file|) && i < |records|
    ensures SpanStart(records) <= records[i].pos
    ensures records[i].pos - SpanStart(records) + Extent(records[i]) <= |Chunk(file, records)|
    ensures Unwrapped(Chunk(file, records), records[i].pos - SpanStart(records), records[i].len, records[i].bases)
            == Unwrapped(file, records[i].pos, records[i].len, records[i].bases)
  {
    SpanCovers(records, |file|, i);
    var lo, hi := SpanStart(records), SpanEnd(records, |file|);
    var r := records[i];
    UnwrappedSlice(file, lo, hi, r.pos - lo, r.pos, r.len, r.bases);
  }

  /** A rank's sequences: every record unwrapped from the file, in index order. */
  function FileBases(file: seq<char>, records: seq<FaiRecord>): (ss: seq<seq<char>>)
    requires Readable(records, |file|)
    ensures |ss| == |records|
    ensures forall i :: 0 <= i < |records| ==> ss[i] == Unwrapped(file, records[i].pos, records[i].len, records[i].bases)
  {
    seq(|records|, i requires 0 <= i < |records| => Unwrapped(file, records[i].pos, records[i].len, records[i].bases))
  }
}
