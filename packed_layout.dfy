/**
 * How the packed sequence stores (src/elba_seq_store.c, seq_store.c) lay
 * their entries out: entry i takes Bytes(lengths[i]) bytes of `buf`, the
 * entries lie end to end from byte 0 in index order, and `offsets[i]` is
 * where entry i starts.  `push` appends one entry at the end; the share step
 * places whole stores one after another.  Both are `Join`s of layouts.
 */
module PackedLayout {
  import opened Collectives
  import opened Nt4Code

  /** The bytes an entry of len bases takes: four bases to a byte, rounded up. */
  function Bytes(len: nat): nat
  {
    (len + 3) / 4
  }

  /** The byte counts of entries of the given lengths. */
  function ByteCounts(lens: seq<nat>): (bs: seq<nat>)
    ensures |bs| == |lens|
    ensures forall i :: 0 <= i < |lens| ==> bs[i] == Bytes(lens[i])
  {
    seq(|lens|, i requires 0 <= i < |lens| => Bytes(lens[i]))
  }

  /**
   * Entries of lengths `lens` lie end to end in `buf` from byte 0: offset i
   * is the sum of the byte counts of the entries before i, and the buffer
   * ends where the last entry does.
   */
  predicate Laid(buf: seq<bv8>, lens: seq<nat>, offs: seq<nat>)
  {
    offs == ExclusiveScan(ByteCounts(lens)) && |buf| == Sum(ByteCounts(lens))
  }

  /** Every entry of a layout lies inside the buffer. */
  lemma LaidFits(buf: seq<bv8>, lens: seq<nat>, offs: seq<nat>, i: nat)
    requires Laid(buf, lens, offs) && i < |lens|
    ensures Fits(buf, offs[i], lens[i])
  {
    SumBoundsElement(ByteCounts(lens), i);
  }

  /** What entry i of a layout reads back as. */
  function EntryAt(buf: seq<bv8>, lens: seq<nat>, offs: seq<nat>, i: nat): (e: seq<char>)
    requires Laid(buf, lens, offs) && i < |lens|
    ensures |e| == lens[i]
  {
    LaidFits(buf, lens, offs, i);
    Unpack(buf, offs[i], lens[i])
  }

  /** What every entry of a layout reads back as, in index order. */
  function Entries(buf: seq<bv8>, lens: seq<nat>, offs: seq<nat>): (es: seq<seq<char>>)
    requires Laid(buf, lens, offs)
    ensures |es| == |lens|
    ensures forall i :: 0 <= i < |lens| ==> es[i] == EntryAt(buf, lens, offs, i)
  {
    seq(|lens|, i requires 0 <= i < |lens| => EntryAt(buf, lens, offs, i))
  }

  lemma ByteCountsAppend(xs: seq<nat>, ys: seq<nat>)
    ensures ByteCounts(xs + ys) == ByteCounts(xs) + ByteCounts(ys)
  {
  }

  /** The empty layout: no bytes, no entries. */
  lemma LaidEmpty()
    ensures Laid([], [], [])
    ensures Entries([], [], []) == []
  {
    assert ExclusiveScan([]) == [];
  }

  /** One packed sequence on its own is a layout whose only entry reads back as its decoding. */
  lemma LaidSingle(s: seq<char>)
    ensures Laid(Pack(s), [|s|], [0])
    ensures Entries(Pack(s), [|s|], [0]) == [Decoded(s)]
  {
    var bs := ByteCounts([|s|]);
    assert bs == [Bytes(|s|)];
    assert bs[..0] == [] && bs[..1] == bs;
    assert ExclusiveScan(bs) == [0];
    UnpackPack(s);
  }

  /**
   * Two layouts placed one after the other: the second one's offsets move
   * up by the first one's size, and the entries read back are the first
   * one's followed by the second one's.
   */
  lemma LaidJoin(b1: seq<bv8>, l1: seq<nat>, o1: seq<nat>, b2: seq<bv8>, l2: seq<nat>, o2: seq<nat>)
    requires Laid(b1, l1, o1) && Laid(b2, l2, o2)
    ensures Laid(b1 + b2, l1 + l2, o1 + Shift(o2, |b1|))
    ensures Entries(b1 + b2, l1 + l2, o1 + Shift(o2, |b1|)) == Entries(b1, l1, o1) + Entries(b2, l2, o2)
  {
    JoinLaid(b1, l1, o1, b2, l2, o2);
    var b, l, o := b1 + b2, l1 + l2, o1 + Shift(o2, |b1|);
    var es, es12 := Entries(b, l, o), Entries(b1, l1, o1) + Entries(b2, l2, o2);
    forall k | 0 <= k < |l|
      ensures es[k] == es12[k]
    {
      JoinEntry(b1, l1, o1, b2, l2, o2, k);
    }
  }

  /** Entry k of the joined layout is entry k of the first layout, or entry k - |l1| of the second. */
  lemma JoinEntry(b1: seq<bv8>, l1: seq<nat>, o1: seq<nat>, b2: seq<bv8>, l2: seq<nat>, o2: seq<nat>, k: nat)
    requires Laid(b1, l1, o1) && Laid(b2, l2, o2) && Laid(b1 + b2, l1 + l2, o1 + Shift(o2, |b1|))
    requires k < |l1| + |l2|
    ensures EntryAt(b1 + b2, l1 + l2, o1 + Shift(o2, |b1|), k)
            == if k < |l1| then EntryAt(b1, l1, o1, k) else EntryAt(b2, l2, o2, k - |l1|)
  {
    var l, o := l1 + l2, o1 + Shift(o2, |b1|);
    if k < |l1| {
      JoinFirst(b1, l1, o1, b2, k);
      assert l[k] == l1[k] && o[k] == o1[k];
    } else {
      JoinSecond(b1, b2, l2, o2, k - |l1|);
      assert l[k] == l2[k - |l1|] && o[k] == |b1| + o2[k - |l1|];
    }
  }

  /** The layout half of `LaidJoin`. */
  lemma JoinLaid(b1: seq<bv8>, l1: seq<nat>, o1: seq<nat>, b2: seq<bv8>, l2: seq<nat>, o2: seq<nat>)
    requires Laid(b1, l1, o1) && Laid(b2, l2, o2)
    ensures Laid(b1 + b2, l1 + l2, o1 + Shift(o2, |b1|))
  {
    ByteCountsAppend(l1, l2);
    ScanAppend(ByteCounts(l1), ByteCounts(l2));
    SumAppend(ByteCounts(l1), ByteCounts(l2));
  }

  /** An entry of the first layout reads back the same once more bytes follow it. */
  lemma JoinFirst(b1: seq<bv8>, l1: seq<nat>, o1: seq<nat>, b2: seq<bv8>, i: nat)
    requires Laid(b1, l1, o1) && i < |l1|
    ensures Fits(b1 + b2, o1[i], l1[i])
    ensures Unpack(b1 + b2, o1[i], l1[i]) == EntryAt(b1, l1, o1, i)
  {
    LaidFits(b1, l1, o1, i);
    var lo, hi := o1[i], o1[i] + Bytes(l1[i]);
    assert (b1 + b2)[lo .. hi] == b1[lo .. hi];
    UnpackFrame(b1 + b2, lo, l1[i], b1, lo);
  }

  /** An entry of the second layout reads back the same from its shifted offset. */
  lemma JoinSecond(b1: seq<bv8>, b2: seq<bv8>, l2: seq<nat>, o2: seq<nat>, j: nat)
    requires Laid(b2, l2, o2) && j < |l2|
    ensures Fits(b1 + b2, |b1| + o2[j], l2[j])
    ensures Unpack(b1 + b2, |b1| + o2[j], l2[j]) == EntryAt(b2, l2, o2, j)
  {
    LaidFits(b2, l2, o2, j);
    var lo, hi := o2[j], o2[j] + Bytes(l2[j]);
    assert (b1 + b2)[|b1| + lo .. |b1| + hi] == b2[lo .. hi];
    UnpackFrame(b1 + b2, |b1| + lo, l2[j], b2, lo);
  }

  /**
   * `push`'s effect on the layout: the packed bytes of s at the end of the
   * buffer, its length and the old buffer size as the new entry's length and
   * offset; the entries are the old ones and then the decoding of s.
   */
  lemma LaidPush(buf: seq<bv8>, lens: seq<nat>, offs: seq<nat>, s: seq<char>)
    requires Laid(buf, lens, offs)
    ensures Laid(buf + Pack(s), lens + [|s|], offs + [|buf|])
    ensures Entries(buf + Pack(s), lens + [|s|], offs + [|buf|]) == Entries(buf, lens, offs) + [Decoded(s)]
  {
    LaidSingle(s);
    assert Shift([0], |buf|) == [|buf|];
    LaidJoin(buf, lens, offs, Pack(s), [|s|], [0]);
  }
}
