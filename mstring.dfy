/**
 * The older string buffer `string_t` and string table `string_store_t`
 * (mstring.c, mstring.h).
 *
 * A `string_t` owns a buffer of `avail` bytes of which the first `len` count;
 * it is a `seq<char>` field of exactly `avail` elements.  A `string_store_t`
 * appends its strings to one `string_t` without counted terminators and
 * records where each one starts: string i runs from displs[i] to the start
 * of string i + 1, the last one to the end of the buffer.
 *
 * `sstore_mpi_scatter` is modelled sequentially: the root's plan is computed
 * from the sending store, and the receiving store of rank `rank` is built
 * from the pieces MPI_Scatterv would hand it.
 */
module MString {
  import opened Size
  import opened Mem
  import opened Collectives
  import opened Partition

  // ---------------------------------------------------------------------
  // The `up2` macro

  /**
   * `up2(x)` bit for bit: x is replaced by 2 when it is at most 1 and by
   * x - 1 otherwise, smeared, and incremented.
   */
  function Up2(x: bv64): bv64
  {
    if x <= 1 then Smear(2) + 1 else Smear(x - 1) + 1
  }

  /** For x <= 1 the macro gives 4: 2 is smeared to 3 before the increment. */
  lemma Up2Small(x: bv64)
    requires x <= 1
    ensures Up2(x) == 4
  {
  }

  /** From 2 on it is `next_pow2` ... */
  lemma Up2Large(x: bv64)
    requires 2 <= x
    ensures Up2(x) == NextPow2(x)
  {
  }

  /** ... so on 2 .. 2^63 it is a power of two ... */
  lemma Up2IsPow2(x: bv64)
    requires 2 <= x <= TOP_POW2
    ensures IsPow2(Up2(x))
  {
    Up2Large(x);
    NextPow2IsPow2(x);
  }

  /** ... that is at least x ... */
  lemma Up2AtLeast(x: bv64)
    requires 2 <= x <= TOP_POW2
    ensures x <= Up2(x)
  {
    NextPow2AtLeast(x);
    calc {
      x;
    <= NextPow2(x);
    == { Up2Large(x); }
      Up2(x);
    }
  }

  /** ... and the least one. */
  lemma Up2Smallest(x: bv64, p: bv64)
    requires 2 <= x && IsPow2(p) && x <= p
    ensures Up2(x) <= p
  {
    Up2Large(x);
    NextPow2Smallest(x, p);
  }

  /** `up2` on the naturals, for the capacity arithmetic of the buffers. */
  function Up2Nat(x: nat): (r: nat)
    ensures x <= r && 2 <= r && IsPowerOfTwo(r)
    ensures 2 <= x ==> r == CeilPow2(x)
  {
    if x <= 1 then
      assert IsPowerOfTwo(2);
      4
    else CeilPow2(x)
  }

  // ---------------------------------------------------------------------
  // string_t

  class MStr {
    var data: seq<char>
    var len: nat
    var avail: nat

    /** `STRING_INIT`. */
    constructor ()
      ensures data == [] && len == 0 && avail == 0
    {
      data, len, avail := [], 0, 0;
    }

    /** The compound literal `(string_t){buf, len, avail}`. */
    constructor Of(data: seq<char>, len: nat, avail: nat)
      ensures this.data == data && this.len == len && this.avail == avail
    {
      this.data, this.len, this.avail := data, len, avail;
    }

    /** The buffer holds `avail` bytes and the counted ones fit in it. */
    predicate Valid()
      reads this
    {
      |data| == avail && len <= avail
    }

    /** The counted bytes. */
    function Chars(): (r: seq<char>)
      reads this
      requires Valid()
      ensures |r| == len
    {
      data[..len]
    }
  }

  /** The length a `string_push` of n bytes needs: old length, the bytes, a NUL, and one more to keep it. */
  function Needed(len: nat, n: nat, keepNull: bool): nat
  {
    len + n + 1 + (if keepNull then 1 else 0)
  }

  /**
   * `string_push`: the first n bytes of s are appended and terminated, the
   * terminator counted when `keepNull` is set; the buffer grows to `up2` of
   * what is needed when it is too small.
   */
  method StringPush(buf: MStr, s: seq<char>, n: nat, keepNull: bool) returns (rc: int)
    requires buf.Valid() && n <= |s|
    modifies buf
    ensures rc == 0
    ensures buf.Valid() && buf.avail >= Needed(old(buf.len), n, keepNull)
    ensures buf.Chars() == old(buf.Chars()) + s[..n] + (if keepNull then ['\0'] else [])
    ensures buf.data[old(buf.len) + n] == '\0'
    ensures Needed(old(buf.len), n, keepNull) > old(buf.avail) ==>
              buf.avail == Up2Nat(Needed(old(buf.len), n, keepNull))
    ensures Needed(old(buf.len), n, keepNull) <= old(buf.avail) ==> buf.avail == old(buf.avail)
    ensures buf.data[old(buf.len) + n + 1 ..] == Realloc(old(buf.data), buf.avail)[old(buf.len) + n + 1 ..]
  {
    var data, len, avail := buf.data, buf.len, buf.avail;
    var needed := Needed(len, n, keepNull);
    if needed > avail {
      avail := Up2Nat(needed);
      data := Realloc(data, avail);
    }
    ghost var grown := data;
    data := data[..len] + s[..n] + data[len + n ..];
    data := data[len + n := '\0'];
    assert data[..len] == grown[..len];
    assert data[len + n + 1 ..] == grown[len + n + 1 ..];
    buf.data, buf.avail := data, avail;
    buf.len := if keepNull then len + n + 1 else len + n;
    rc := 0;
  }

  /**
   * `string_pad_null`: nothing happens when a NUL already sits just past the
   * counted bytes inside the buffer; otherwise a NUL is appended and
   * counted, the buffer growing to `up2(len + 1)` when full.
   */
  method StringPadNull(buf: MStr)
    requires buf.Valid()
    modifies buf
    ensures buf.Valid()
    ensures old(buf.len) < old(buf.avail) && old(buf.data)[old(buf.len)] == '\0' ==> unchanged(buf)
    ensures !(old(buf.len) < old(buf.avail) && old(buf.data)[old(buf.len)] == '\0') ==>
              buf.Chars() == old(buf.Chars()) + ['\0']
              && buf.avail == (if old(buf.len) < old(buf.avail) then old(buf.avail) else Up2Nat(old(buf.len) + 1))
              && buf.data[buf.len ..] == Realloc(old(buf.data), buf.avail)[buf.len ..]
  {
    var needed := buf.len + 1;
    if buf.avail >= needed && buf.data[buf.len] == '\0' {
      return;
    } else if needed > buf.avail {
      var avail := Up2Nat(needed);
      buf.data := Realloc(buf.data, avail);
      buf.avail := avail;
    }
    ghost var grown := buf.data;
    buf.data := buf.data[buf.len := '\0'];
    buf.len := buf.len + 1;
    assert buf.data[..buf.len - 1] == grown[..buf.len - 1];
  }

  /** After padding the counted bytes end in a NUL, or a NUL follows them inside the buffer. */
  lemma PadNullTerminates(len: nat, avail: nat, data: seq<char>, len': nat, data': seq<char>)
    requires |data| == avail && len <= avail && |data'| >= len'
    requires len < avail && data[len] == '\0' ==> len' == len && data' == data
    requires !(len < avail && data[len] == '\0') ==> len' == len + 1 && data'[..len'] == data[..len] + ['\0']
    ensures (len' < |data'| && data'[len'] == '\0') || (len' > 0 && data'[len' - 1] == '\0')
  {
    if !(len < avail && data[len] == '\0') {
      assert data'[..len'][len] == '\0';
    }
  }

  // ---------------------------------------------------------------------
  // Strings laid out by their start positions

  /** Where each of the n strings starts, then where the last one ends. */
  function Starts(displs: seq<nat>, n: nat, total: nat): (p: seq<nat>)
    requires n <= |displs|
    ensures |p| == n + 1 && p[n] == total
    ensures forall i :: 0 <= i < n ==> p[i] == displs[i]
  {
    displs[..n] + [total]
  }

  /** Start positions that begin at 0 and never go down. */
  predicate Tiled(p: seq<nat>)
  {
    |p| >= 1 && p[0] == 0 && forall i, j :: 0 <= i <= j < |p| ==> p[i] <= p[j]
  }

  /** The strings between consecutive positions. */
  function Pieces(data: seq<char>, p: seq<nat>): (ss: seq<seq<char>>)
    requires Tiled(p) && p[|p| - 1] <= |data|
    ensures |ss| == |p| - 1
    ensures forall i {:trigger ss[i]} :: 0 <= i < |ss| ==> ss[i] == data[p[i] .. p[i + 1]]
  {
    seq(|p| - 1, i requires 0 <= i < |p| - 1 => data[p[i] .. p[i + 1]])
  }

  /** Appending s to the data and its end to the positions appends s to the pieces. */
  lemma PiecesPush(data: seq<char>, p: seq<nat>, data': seq<char>, s: seq<char>)
    requires Tiled(p) && p[|p| - 1] <= |data|
    requires p[|p| - 1] + |s| <= |data'|
    requires data'[..p[|p| - 1] + |s|] == data[..p[|p| - 1]] + s
    ensures Tiled(p + [p[|p| - 1] + |s|])
    ensures Pieces(data', p + [p[|p| - 1] + |s|]) == Pieces(data, p) + [s]
  {
    var e := p[|p| - 1];
    var p' := p + [e + |s|];
    assert forall i :: 0 <= i < |p| ==> p'[i] == p[i] <= e;
    var ss, ss' := Pieces(data, p), Pieces(data', p');
    forall i | 0 <= i < |ss|
      ensures ss'[i] == ss[i]
    {
      assert p'[i] == p[i] <= p'[i + 1] == p[i + 1] <= e;
      SliceOfPrefix(data', p[i], p[i + 1], e + |s|);
      SliceOfPrefix(data, p[i], p[i + 1], e);
    }
    assert ss'[|ss|] == s by {
      SliceOfPrefix(data', e, e + |s|, e + |s|);
    }
  }

  /** The pieces a .. b, laid end to end, are the data between their outer positions. */
  lemma {:induction false} PiecesConcat(data: seq<char>, p: seq<nat>, a: nat, b: nat)
    requires Tiled(p) && p[|p| - 1] <= |data|
    requires a <= b < |p|
    ensures p[a] <= p[b] <= |data|
    ensures Concat(Pieces(data, p)[a .. b]) == data[p[a] .. p[b]]
    decreases b - a
  {
    TiledBetween(p, a, b);
    TiledBetween(p, b, |p| - 1);
    var ss := Pieces(data, p);
    if a < b {
      PiecesConcat(data, p, a, b - 1);
      TiledBetween(p, b - 1, b);
      var parts := ss[a .. b];
      assert parts[..|parts| - 1] == ss[a .. b - 1];
      assert parts[|parts| - 1] == data[p[b - 1] .. p[b]];
      ConcatSnocSlice(data, parts, p[a], p[b - 1], p[b]);
    } else {
      assert ss[a .. b] == [];
    }
  }

  /** One more adjoining slice extends the slice the parts lay out. */
  lemma ConcatSnocSlice(data: seq<char>, parts: seq<seq<char>>, i: nat, j: nat, k: nat)
    requires i <= j <= k <= |data| && |parts| > 0
    requires Concat(parts[..|parts| - 1]) == data[i .. j]
    requires parts[|parts| - 1] == data[j .. k]
    ensures Concat(parts) == data[i .. k]
  {
    SliceSplit(data, i, j, k);
  }

  /** Positions in a tiling never go down. */
  lemma TiledBetween(p: seq<nat>, i: nat, j: nat)
    requires Tiled(p) && i <= j < |p|
    ensures p[i] <= p[j]
  {
  }

  /** Positions c .. c + k shifted down by p[c] lay out the pieces c .. c + k of the cut-out data. */
  lemma PiecesShift(data: seq<char>, p: seq<nat>, c: nat, k: nat)
    requires Tiled(p) && p[|p| - 1] <= |data|
    requires c + k < |p|
    ensures p[c] <= p[c + k] <= |data|
    ensures Tiled(Rebased(p, c, k))
    ensures Pieces(data[p[c] .. p[c + k]], Rebased(p, c, k)) == Pieces(data, p)[c .. c + k]
  {
    assert p[c] <= p[c + k] <= p[|p| - 1];
    var q := Rebased(p, c, k);
    var cut := data[p[c] .. p[c + k]];
    var ss, ss' := Pieces(data, p), Pieces(cut, q);
    forall i | 0 <= i < k
      ensures ss'[i] == ss[c + i]
    {
      assert p[c] <= p[c + i] <= p[c + i + 1] <= p[c + k];
      SliceOfSlice(data, p[c], p[c + k], q[i], q[i + 1]);
    }
  }

  /** The positions c .. c + k, less p[c]. */
  function Rebased(p: seq<nat>, c: nat, k: nat): (q: seq<nat>)
    requires c + k < |p| && forall i :: c <= i <= c + k ==> p[c] <= p[i]
    ensures |q| == k + 1
    ensures forall i :: 0 <= i <= k ==> q[i] == p[c + i] - p[c]
  {
    seq(k + 1, i requires 0 <= i <= k => p[c + i] - p[c])
  }

  // ---------------------------------------------------------------------
  // string_store_t

  class SStore {
    var buf: MStr
    var numStrings: nat
    var availDispls: nat
    var displs: seq<nat>

    /** `STRING_STORE_INIT`. */
    constructor ()
      ensures fresh(buf) && buf.data == [] && buf.len == 0 && buf.avail == 0
      ensures numStrings == 0 && availDispls == 0 && displs == []
      ensures Valid() && Strings() == []
    {
      buf := new MStr();
      numStrings, availDispls, displs := 0, 0, [];
    }

    /** Every string starts where the one before it ends, the first at 0, the last ending at `buf.len`. */
    predicate Valid()
      reads this, buf
    {
      buf.Valid() && |displs| == availDispls && numStrings <= availDispls
      && Tiled(Starts(displs, numStrings, buf.len))
    }

    /** The strings of the store, in push order. */
    function Strings(): (ss: seq<seq<char>>)
      reads this, buf
      requires Valid()
      ensures |ss| == numStrings
    {
      Pieces(buf.data, Starts(displs, numStrings, buf.len))
    }
  }

  /** Displacement slots as `realloc` hands them out, zero-filled. */
  function NewSlots(n: nat): (z: seq<nat>)
    ensures |z| == n
  {
    seq(n, _ => 0)
  }

  /**
   * `sstore_push`: the first n bytes of s become the last string, starting
   * at the old end of the buffer; the displacement array grows to
   * `up2(num_strings + 1)` slots when full.
   */
  method SStorePush(store: SStore, s: seq<char>, n: nat) returns (rc: int)
    requires store.Valid() && n <= |s|
    modifies store, store.buf
    ensures rc == 0
    ensures store.buf == old(store.buf) && store.Valid()
    ensures store.numStrings == old(store.numStrings) + 1
    ensures store.Strings() == old(store.Strings()) + [s[..n]]
    ensures store.displs[old(store.numStrings)] == old(store.buf.len)
    ensures store.buf.len == old(store.buf.len) + n
    ensures old(store.numStrings) + 1 > old(store.availDispls) ==>
              store.availDispls == Up2Nat(old(store.numStrings) + 1)
    ensures old(store.numStrings) + 1 <= old(store.availDispls) ==>
              store.availDispls == old(store.availDispls)
  {
    ghost var data, p := store.buf.data, Starts(store.displs, store.numStrings, store.buf.len);
    if store.numStrings + 1 > store.availDispls {
      var avail := Up2Nat(store.numStrings + 1);
      store.displs := store.displs + NewSlots(avail - store.availDispls);
      store.availDispls := avail;
    }
    var offset := store.buf.len;
    store.displs := store.displs[store.numStrings := offset];
    store.numStrings := store.numStrings + 1;
    rc := StringPush(store.buf, s, n, false);
    assert Starts(store.displs, store.numStrings, store.buf.len) == p + [offset + n];
    assert store.buf.data[..offset + n] == data[..offset] + s[..n];
    PiecesPush(data, p, store.buf.data, s[..n]);
  }

  /**
   * `sstore_get_string_length`: where the next string starts, or the end of
   * the buffer for the last one, less where string id starts.
   */
  function GetStringLength(store: SStore, id: nat): (r: nat)
    reads store, store.buf
    requires store.Valid() && id < store.numStrings
    ensures r == |store.Strings()[id]|
  {
    var p := Starts(store.displs, store.numStrings, store.buf.len);
    var endpos := if id == store.numStrings - 1 then store.buf.len else store.displs[id + 1];
    assert p[id] <= p[id + 1] == endpos;
    endpos - store.displs[id]
  }

  /** `sstore_maxlen`: the length of the longest string, 0 for an empty store. */
  method MaxLen(store: SStore) returns (maxlen: nat)
    requires store.Valid()
    ensures forall i :: 0 <= i < store.numStrings ==> |store.Strings()[i]| <= maxlen
    ensures store.numStrings == 0 ==> maxlen == 0
    ensures store.numStrings > 0 ==> exists i :: 0 <= i < store.numStrings && |store.Strings()[i]| == maxlen
  {
    ghost var ss := store.Strings();
    maxlen := 0;
    var i := 0;
    while i < store.numStrings
      invariant i <= store.numStrings
      invariant forall k :: 0 <= k < i ==> |ss[k]| <= maxlen
      invariant i == 0 ==> maxlen == 0
      invariant i > 0 ==> exists k :: 0 <= k < i && |ss[k]| == maxlen
    {
      var len := GetStringLength(store, i);
      maxlen := if len < maxlen then maxlen else len;
      i := i + 1;
    }
  }

  /**
   * `sstore_get_string_copy`: string id and a NUL into the caller's buffer,
   * which must have room for both; the result is the string's length.
   */
  method GetStringCopy(store: SStore, id: nat, s: array<char>) returns (len: nat)
    requires store.Valid() && id < store.numStrings
    requires |store.Strings()[id]| < s.Length
    modifies s
    ensures len == |store.Strings()[id]|
    ensures s[..len] == store.Strings()[id] && s[len] == '\0'
    ensures forall k :: len < k < s.Length ==> s[k] == old(s[k])
  {
    len := GetStringLength(store, id);
    var off := store.displs[id];
    var str := store.buf.data[off .. off + len];
    assert str == store.Strings()[id];
    CopyTerminated(str, s);
  }

  /** `sstore_get_string_dup`: a fresh NUL-terminated copy of string id. */
  method GetStringDup(store: SStore, id: nat) returns (s: seq<char>)
    requires store.Valid() && id < store.numStrings
    ensures s == store.Strings()[id] + ['\0']
  {
    var len := GetStringLength(store, id);
    var dst := new char[len + 1];
    len := GetStringCopy(store, id, dst);
    s := dst[..];
    assert s == dst[..len] + [dst[len]];
  }

  /** The strings of a store tile its buffer: laid end to end they are its counted bytes. */
  lemma StringsTile(store: SStore)
    requires store.Valid()
    ensures Concat(store.Strings()) == store.buf.Chars()
  {
    var p := Starts(store.displs, store.numStrings, store.buf.len);
    PiecesConcat(store.buf.data, p, 0, store.numStrings);
    assert store.Strings()[0 .. store.numStrings] == store.Strings();
  }

  // ---------------------------------------------------------------------
  // sstore_mpi_scatter, run sequentially

  /** The characters rank r is sent: the total length of the strings of its block. */
  function CharCounts(ss: seq<seq<char>>, p: nat): (cs: seq<nat>)
    ensures |cs| == p
    ensures forall r :: 0 <= r < p ==> cs[r] == Sum(Lengths(Block(ss, p, r)))
  {
    seq(p, r requires 0 <= r < p => Sum(Lengths(Block(ss, p, r))))
  }

  /** The lengths of the strings a .. j + 1 add up to those of a .. j plus string j. */
  lemma SumLengthsStep(ss: seq<seq<char>>, a: nat, j: nat)
    requires a <= j < |ss|
    ensures Sum(Lengths(ss[a .. j + 1])) == Sum(Lengths(ss[a .. j])) + |ss[j]|
  {
    assert Lengths(ss[a .. j + 1]) == Lengths(ss[a .. j]) + [|ss[j]|];
    SumAppend(Lengths(ss[a .. j]), [|ss[j]|]);
    assert [|ss[j]|][..0] == [];
  }

  /**
   * Rank r's character count is the total length of the strings the string
   * plan gives it, which start at its displacement.
   */
  lemma CharCountAtDispl(ss: seq<seq<char>>, p: nat, r: nat)
    requires r < p
    ensures ExclusiveScan(Counts(|ss|, p))[r] + Counts(|ss|, p)[r] <= |ss|
    ensures CharCounts(ss, p)[r]
            == Sum(Lengths(ss[ExclusiveScan(Counts(|ss|, p))[r] .. ExclusiveScan(Counts(|ss|, p))[r] + Counts(|ss|, p)[r]]))
  {
    BlockAtDispl(ss, p, r);
  }

  /** The inner loop of the character plan: the total length of the `count` strings from `lo` on. */
  method SumLengths(store: SStore, lo: nat, count: nat) returns (acc: nat)
    requires store.Valid() && lo + count <= store.numStrings
    ensures acc == Sum(Lengths(store.Strings()[lo .. lo + count]))
  {
    ghost var ss := store.Strings();
    acc := 0;
    var j := lo;
    while j < lo + count
      invariant lo <= j <= lo + count
      invariant acc == Sum(Lengths(ss[lo .. j]))
    {
      var len := GetStringLength(store, j);
      assert len == |ss[j]|;
      SumLengthsStep(ss, lo, j);
      acc := acc + len;
      j := j + 1;
    }
  }

  /** Rank r's character count, summed over the strings the string plan gives it. */
  method BlockChars(store: SStore, p: nat, r: nat, lo: nat, count: nat) returns (acc: nat)
    requires store.Valid() && r < p
    requires lo == ExclusiveScan(Counts(store.numStrings, p))[r] && count == Counts(store.numStrings, p)[r]
    ensures acc == CharCounts(store.Strings(), p)[r]
  {
    ghost var ss := store.Strings();
    assert |ss| == store.numStrings;
    CharCountAtDispl(ss, p, r);
    acc := SumLengths(store, lo, count);
  }

  /**
   * The root's character plan: rank i is sent the characters of the strings
   * of its block, and the character displacements are their exclusive
   * prefix sums.
   */
  method CharPlan(store: SStore, p: nat, counts: array<nat>, displs: array<nat>)
      returns (charCounts: array<nat>, charDispls: array<nat>)
    requires store.Valid() && p > 0
    requires counts[..] == Counts(store.numStrings, p) && displs[..] == ExclusiveScan(Counts(store.numStrings, p))
    ensures fresh(charCounts) && fresh(charDispls)
    ensures charCounts[..] == CharCounts(store.Strings(), p)
    ensures charDispls[..] == ExclusiveScan(CharCounts(store.Strings(), p))
  {
    ghost var cs := CharCounts(store.Strings(), p);
    charCounts := new nat[p];
    charDispls := new nat[p];
    charDispls[0] := 0;
    var i := 0;
    while i < p
      invariant 0 <= i <= p
      invariant forall k :: 0 <= k < i ==> charCounts[k] == cs[k]
      invariant forall k :: 0 <= k < i && k + 1 < p ==> charDispls[k] + charCounts[k] == charDispls[k + 1]
      invariant charDispls[0] == 0
    {
      var c := BlockChars(store, p, i, displs[i], counts[i]);
      charCounts[i] := c;
      if i != p - 1 {
        charDispls[i + 1] := charDispls[i] + charCounts[i];
      }
      i := i + 1;
    }
    ScanOfSteps(charCounts[..], charDispls[..]);
  }

  /** The characters of strings a .. b are the positions between them. */
  lemma PiecesLength(data: seq<char>, p: seq<nat>, a: nat, b: nat)
    requires Tiled(p) && p[|p| - 1] <= |data|
    requires a <= b < |p|
    ensures p[a] <= p[b]
    ensures Sum(Lengths(Pieces(data, p)[a .. b])) == p[b] - p[a]
  {
    PiecesConcat(data, p, a, b);
    ConcatLength(Pieces(data, p)[a .. b]);
  }

  /** Block r's characters run from where its first string starts to where its last one ends. */
  lemma CharCountOfBlock(data: seq<char>, pos: seq<nat>, p: nat, r: nat)
    requires Tiled(pos) && pos[|pos| - 1] <= |data|
    requires r < p
    ensures Bounds(|pos| - 1, p)[r] <= Bounds(|pos| - 1, p)[r + 1] < |pos|
    ensures CharCounts(Pieces(data, pos), p)[r]
            == pos[Bounds(|pos| - 1, p)[r + 1]] - pos[Bounds(|pos| - 1, p)[r]]
  {
    var ss := Pieces(data, pos);
    var b := Bounds(|ss|, p);
    BlockIsSlice(ss, p, r);
    PiecesLength(data, pos, b[r], b[r + 1]);
  }

  /** The characters of the blocks below rank r take up the buffer up to where block r starts. */
  lemma CharDisplsAt(data: seq<char>, pos: seq<nat>, p: nat, r: nat)
    requires Tiled(pos) && pos[|pos| - 1] <= |data|
    requires r < p
    ensures Bounds(|pos| - 1, p)[r] < |pos|
    ensures Sum(CharCounts(Pieces(data, pos), p)[..r]) == pos[Bounds(|pos| - 1, p)[r]]
  {
    var cs := CharCounts(Pieces(data, pos), p);
    var b := Bounds(|pos| - 1, p);
    BoundsMonotone(|pos| - 1, p, r, p);
    var f := seq(p + 1, k requires 0 <= k <= p => if b[k] < |pos| then pos[b[k]] else 0);
    forall k {:trigger cs[k]} | 0 <= k < p
      ensures f[k] + cs[k] == f[k + 1]
    {
      CharCountOfBlock(data, pos, p, k);
    }
    Telescope(cs, f, r);
  }

  /** Extra bytes past the last position do not change the pieces. */
  lemma PiecesExtend(data: seq<char>, p: seq<nat>, extra: seq<char>)
    requires Tiled(p) && p[|p| - 1] <= |data|
    ensures Pieces(data + extra, p) == Pieces(data, p)
  {
    var ss, ss' := Pieces(data, p), Pieces(data + extra, p);
    forall i | 0 <= i < |ss|
      ensures ss'[i] == ss[i]
    {
      assert p[i] <= p[i + 1] <= p[|p| - 1];
      assert (data + extra)[p[i] .. p[i + 1]] == data[p[i] .. p[i + 1]];
    }
  }

  /** Copies a run of displacements into a fresh receive buffer. */
  method ReceiveDispls(d: seq<nat>, lo: nat, n: nat) returns (buf: array<nat>)
    requires lo + n <= |d|
    ensures fresh(buf) && buf[..] == d[lo .. lo + n]
  {
    buf := new nat[n];
    forall k | 0 <= k < n {
      buf[k] := d[lo + k];
    }
  }

  /** The loop `displs_recvbuf[i] -= displs_offset`. */
  method Rebase(d: array<nat>, offset: nat)
    requires forall i :: 0 <= i < d.Length ==> offset <= d[i]
    modifies d
    ensures forall i :: 0 <= i < d.Length ==> d[i] == old(d[i]) - offset
  {
    var i := 0;
    while i < d.Length
      invariant 0 <= i <= d.Length
      invariant forall k :: 0 <= k < i ==> d[k] == old(d[k]) - offset
      invariant forall k :: i <= k < d.Length ==> d[k] == old(d[k])
    {
      d[i] := d[i] - offset;
      i := i + 1;
    }
  }

  /**
   * What rank r is sent, read off the root's two plans: its block of
   * strings runs from the r-th string displacement for the r-th count, and
   * its characters from the start of its first string to the end of its
   * last one.
   */
  lemma ScatterPlan(data: seq<char>, pos: seq<nat>, p: nat, r: nat)
    requires Tiled(pos) && pos[|pos| - 1] <= |data| && r < p
    ensures Bounds(|pos| - 1, p)[r] + Counts(|pos| - 1, p)[r] == Bounds(|pos| - 1, p)[r + 1] < |pos|
    ensures ExclusiveScan(Counts(|pos| - 1, p))[r] == Bounds(|pos| - 1, p)[r]
    ensures ExscanAt(CharCounts(Pieces(data, pos), p), r) == pos[Bounds(|pos| - 1, p)[r]]
    ensures ExclusiveScan(CharCounts(Pieces(data, pos), p))[r] == pos[Bounds(|pos| - 1, p)[r]]
    ensures pos[Bounds(|pos| - 1, p)[r]] + CharCounts(Pieces(data, pos), p)[r]
            == pos[Bounds(|pos| - 1, p)[r + 1]] <= |data|
  {
    var n := |pos| - 1;
    var b := Bounds(n, p);
    DisplOfBlock(n, p, r);
    BlockIsSlice(Pieces(data, pos), p, r);
    CharDisplsAt(data, pos, p, r);
    CharCountOfBlock(data, pos, p, r);
    assert pos[b[r + 1]] <= pos[n];
  }

  /**
   * The received characters, NUL-terminated, cut at the rebased
   * displacements give exactly the block of strings, and the block laid end
   * to end is those characters.
   */
  lemma ScatterBlock(data: seq<char>, pos: seq<nat>, first: nat, n: nat)
    requires Tiled(pos) && pos[|pos| - 1] <= |data| && first + n < |pos|
    ensures pos[first] <= pos[first + n] <= |data|
    ensures Tiled(Rebased(pos, first, n))
    ensures Pieces(data[pos[first] .. pos[first + n]] + ['\0'], Rebased(pos, first, n))
            == Pieces(data, pos)[first .. first + n]
    ensures Concat(Pieces(data, pos)[first .. first + n]) == data[pos[first] .. pos[first + n]]
  {
    var q := Rebased(pos, first, n);
    var received := data[pos[first] .. pos[first + n]];
    PiecesShift(data, pos, first, n);
    PiecesExtend(received, q, ['\0']);
    PiecesConcat(data, pos, first, first + n);
  }

  /** The rebased displacements and the received character count lay out the rebased positions. */
  lemma RebasedStarts(pos: seq<nat>, first: nat, n: nat, e: seq<nat>, chars: nat)
    requires first + n < |pos| && forall i :: first <= i <= first + n ==> pos[first] <= pos[i]
    requires |e| == n && forall i :: 0 <= i < n ==> e[i] == pos[first + i] - pos[first]
    requires chars == pos[first + n] - pos[first]
    ensures Starts(e, n, chars) == Rebased(pos, first, n)
  {
  }

  /**
   * The root's two plans and what the collectives of the scatter hand rank
   * `rank`: its string count and first string, its character count and
   * first character, and the exclusive scan of the character counts.
   */
  method PlanFor(send: SStore, nprocs: nat, rank: nat) returns (first: nat, n: nat, lo: nat, chars: nat, offset: nat)
    requires send.Valid() && rank < nprocs
    ensures first == Bounds(send.numStrings, nprocs)[rank]
    ensures first + n == Bounds(send.numStrings, nprocs)[rank + 1] <= send.numStrings
    ensures offset == lo == Starts(send.displs, send.numStrings, send.buf.len)[first]
    ensures lo + chars == Starts(send.displs, send.numStrings, send.buf.len)[first + n] <= |send.buf.data|
  {
    var counts, displs := Plan(send.numStrings, nprocs);
    var charCounts, charDispls := CharPlan(send, nprocs, counts, displs);
    ScatterPlan(send.buf.data, Starts(send.displs, send.numStrings, send.buf.len), nprocs, rank);
    // MPI_Scatter of the counts and MPI_Scatterv of the displacements
    n, chars := counts[rank], charCounts[rank];
    first, lo := displs[rank], charDispls[rank];
    // MPI_Exscan of the character counts
    offset := ExscanAt(charCounts[..], rank);
  }

  /**
   * The receiving end of the scatter: `recv` takes the rebased
   * displacements and a fresh buffer of the received characters and a NUL.
   */
  method Install(recv: SStore, d: seq<nat>, received: seq<char>)
    requires Tiled(Starts(d, |d|, |received|))
    modifies recv
    ensures fresh(recv.buf) && recv.Valid()
    ensures recv.buf.data == received + ['\0'] && recv.buf.len == |received| && recv.buf.avail == |received| + 1
    ensures recv.displs == d && recv.numStrings == recv.availDispls == |d|
    ensures recv.Strings() == Pieces(received + ['\0'], Starts(d, |d|, |received|))
    ensures recv.buf.Chars() == received
  {
    var chars := |received|;
    recv.buf := new MStr.Of(received + ['\0'], chars, chars + 1);
    recv.displs := d;
    recv.availDispls, recv.numStrings := |d|, |d|;
    assert recv.buf.data[..chars] == received;
  }

  /**
   * `sstore_mpi_scatter` for the process `rank` of `nprocs`: the root splits
   * the strings of `send` into the linear blocks, and `recv` becomes a store
   * of exactly rank's block, its displacements rebased to start at 0 and
   * its buffer holding just their characters and a NUL.
   */
  method Scatter(send: SStore, recv: SStore, nprocs: nat, rank: nat) returns (rc: int)
    requires send.Valid() && rank < nprocs
    requires send.numStrings <= INT_MAX && send.buf.len <= INT_MAX
    modifies recv
    ensures rc == 0
    ensures fresh(recv.buf) && recv.Valid()
    ensures recv.Strings() == Block(old(send.Strings()), nprocs, rank)
    ensures recv.numStrings == recv.availDispls == BlockCount(old(send.numStrings), nprocs, rank)
    ensures recv.buf.Chars() == Concat(recv.Strings())
    ensures recv.buf.avail == recv.buf.len + 1 && recv.buf.data[recv.buf.len] == '\0'
  {
    ghost var data := send.buf.data;
    ghost var pos := Starts(send.displs, send.numStrings, send.buf.len);
    ghost var ss := send.Strings();
    var first, n, lo, chars, offset := PlanFor(send, nprocs, rank);
    // The received displacements and characters
    var d := ReceiveDispls(send.displs, first, n);
    var received := send.buf.data[lo .. lo + chars];
    ReceivedAbove(pos, send.displs, send.numStrings, first, n, d[..]);
    Rebase(d, offset);
    ScatterReceived(data, pos, nprocs, rank, first, n, d[..], received);
    Install(recv, d[..], received);
    rc := 0;
  }

  /** The displacements a rank receives are at or above the first of them. */
  lemma ReceivedAbove(pos: seq<nat>, displs: seq<nat>, numStrings: nat, first: nat, n: nat, d: seq<nat>)
    requires numStrings <= |displs| && |pos| == numStrings + 1 && Tiled(pos)
    requires pos == Starts(displs, numStrings, pos[numStrings])
    requires first + n <= numStrings && d == displs[first .. first + n]
    ensures forall i :: 0 <= i < n ==> pos[first] <= d[i]
  {
    forall i | 0 <= i < n
      ensures pos[first] <= d[i]
    {
      assert d[i] == pos[first + i];
      TiledBetween(pos, first, first + i);
    }
  }

  /**
   * What rank receives, rebased, lays out its linear block of the root's
   * strings, and is their characters.
   */
  lemma ScatterReceived(data: seq<char>, pos: seq<nat>, nprocs: nat, rank: nat, first: nat, n: nat,
                        d: seq<nat>, received: seq<char>)
    requires Tiled(pos) && pos[|pos| - 1] <= |data| && rank < nprocs
    requires first == Bounds(|pos| - 1, nprocs)[rank] && first + n == Bounds(|pos| - 1, nprocs)[rank + 1] < |pos|
    requires |d| == n && forall i :: 0 <= i < n ==> d[i] == pos[first + i] - pos[first]
    requires pos[first] <= pos[first + n] && received == data[pos[first] .. pos[first + n]]
    ensures Tiled(Starts(d, n, |received|))
    ensures Pieces(received + ['\0'], Starts(d, n, |received|)) == Block(Pieces(data, pos), nprocs, rank)
    ensures Concat(Block(Pieces(data, pos), nprocs, rank)) == received
  {
    var ss := Pieces(data, pos);
    BlockIsSlice(ss, nprocs, rank);
    assert Block(ss, nprocs, rank) == ss[first .. first + n];
    ScatterBlock(data, pos, first, n);
    forall i | first <= i <= first + n
      ensures pos[first] <= pos[i]
    {
      TiledBetween(pos, first, i);
    }
    RebasedStarts(pos, first, n, d, |received|);
  }
}
