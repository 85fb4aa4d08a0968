/**
 * The string table `elba_str_store_t` (src/elba_str_store.c,
 * inc/elba_str_store.h): all strings are concatenated in one growable
 * string `buf`, and string i occupies buf[displs[i] .. displs[i+1]).  The
 * displacement array has room for `mem` entries and grows 4096 entries at a
 * time; it is a `seq<nat>` field of exactly `mem` elements, new entries
 * standing for the uninitialised memory `realloc` adds.
 */
module ElbaStrStore {
  import opened Wrappers
  import opened ElbaError
  import ElbaStr
  import opened Mem

  /** How many displacement slots `elba_str_store_pushl` adds when it runs out. */
  const DISPLS_CHUNK: nat := 4096

  class StrStore {
    var buf: ElbaStr.Str
    var displs: seq<nat>
    var size: nat
    var mem: nat

    /** `ELBA_STR_STORE_INIT`. */
    constructor ()
      ensures fresh(buf) && buf.data == [] && buf.len == 0 && buf.mem == 0
      ensures displs == [] && size == 0 && mem == 0
      ensures Valid() && Strings() == []
    {
      buf := new ElbaStr.Str();
      displs, size, mem := [], 0, 0;
    }

    /** The strings lie in `buf` as the displacements say, the last one ending where `buf` ends. */
    predicate Valid()
      reads this, buf
    {
      buf.Valid() && |displs| == mem && Laid(buf.data, displs, size)
      && buf.len == End(displs, size)
    }

    /** The strings of the store, in push order. */
    function Strings(): (ss: seq<seq<char>>)
      reads this, buf
      requires Valid()
      ensures |ss| == size
      ensures forall i {:trigger ss[i]} :: 0 <= i < size ==> |ss[i]| == Width(displs, i) > 0
    {
      LaidWidths(buf.data, displs, size);
      StringsOf(buf.data, displs, size)
    }
  }

  /**
   * n non-empty strings laid end to end in `data` from position 0, string i
   * at [d[i], d[i+1]).
   */
  predicate Laid(data: seq<char>, d: seq<nat>, n: nat)
  {
    n > 0 ==>
      n + 1 <= |d| && d[0] == 0 && d[n] <= |data|
      && forall i, j :: 0 <= i < j <= n ==> d[i] < d[j]
  }

  /** How far displacement i + 1 lies past displacement i. */
  function Width(d: seq<nat>, i: nat): int
    requires i + 1 < |d|
  {
    d[i + 1] as int - d[i] as int
  }

  lemma LaidWidths(data: seq<char>, d: seq<nat>, n: nat)
    requires Laid(data, d, n)
    ensures forall i :: 0 <= i < n ==> Width(d, i) > 0
  {
    forall i | 0 <= i < n
      ensures Width(d, i) > 0
    {
      assert d[i] < d[i + 1];
    }
  }

  /** Where the n strings end: 0 when there are none. */
  function End(d: seq<nat>, n: nat): nat
    requires n > 0 ==> n < |d|
  {
    if n == 0 then 0 else d[n]
  }

  function StringsOf(data: seq<char>, d: seq<nat>, n: nat): (ss: seq<seq<char>>)
    requires Laid(data, d, n)
    ensures |ss| == n
    ensures forall i {:trigger ss[i]} :: 0 <= i < n ==> ss[i] == data[d[i] .. d[i + 1]]
  {
    seq(n, i requires 0 <= i < n => data[d[i] .. d[i + 1]])
  }

  /** Appending s to the data and its end to the displacements appends s to the strings. */
  lemma StringsPush(data: seq<char>, d: seq<nat>, n: nat, data': seq<char>, d': seq<nat>, s: seq<char>)
    requires Laid(data, d, n)
    requires |s| > 0 && End(d, n) + |s| <= |data'| && data'[..End(d, n) + |s|] == data[..End(d, n)] + s
    requires n + 2 <= |d'| && d'[0] == 0 && d'[n + 1] == End(d, n) + |s|
    requires forall i :: 0 < i <= n ==> d'[i] == d[i]
    ensures Laid(data', d', n + 1) && End(d', n + 1) == End(d, n) + |s|
    ensures StringsOf(data', d', n + 1) == StringsOf(data, d, n) + [s]
  {
    var e := End(d, n);
    assert forall i :: 0 <= i <= n ==> d'[i] == (if i == 0 then 0 else d[i]);
    assert forall i :: 0 <= i <= n ==> d'[i] <= e;
    var ss, ss' := StringsOf(data, d, n), StringsOf(data', d', n + 1);
    forall i | 0 <= i < n
      ensures ss'[i] == ss[i]
    {
      assert d[i] < d[i + 1] <= e;
      SliceOfPrefix(data', d'[i], d'[i + 1], e + |s|);
      SliceOfPrefix(data, d[i], d[i + 1], e);
    }
    assert ss'[n] == s by {
      SliceOfPrefix(data', e, e + |s|, e + |s|);
    }
  }

  /** Displacement slots as `realloc` hands them out, zero-filled. */
  function NewSlots(n: nat): (z: seq<nat>)
    ensures |z| == n
  {
    seq(n, _ => 0)
  }

  /**
   * `elba_str_store_pushl`: a NULL store or string, or an empty string,
   * fails and changes nothing; otherwise the first `len` characters of s
   * become the last string of the store.
   */
  method PushL(store: StrStore?, s: Option<seq<char>>, len: nat) returns (rc: int)
    requires store != null ==> store.Valid()
    requires s.Some? ==> len <= |s.value|
    modifies if store == null then {} else {store, store.buf}
    ensures rc == FAILURE <==> store == null || s.None? || len == 0
    ensures rc == SUCCESS || rc == FAILURE
    ensures rc == FAILURE && store != null ==> unchanged(store) && unchanged(store.buf)
    ensures rc == SUCCESS ==>
              store.buf == old(store.buf) && store.Valid()
              && store.size == old(store.size) + 1
              && store.Strings() == old(store.Strings()) + [s.value[..len]]
              && store.displs[0] == 0 && store.displs[store.size] == store.buf.len
              && store.size + 1 <= store.mem
  {
    if store == null || s.None? || len == 0 {
      return FAILURE;
    }
    ghost var data, d, n := store.buf.data, store.displs, store.size;
    if store.size + 2 > store.mem {
      store.mem := store.mem + DISPLS_CHUNK;
      store.displs := store.displs + NewSlots(DISPLS_CHUNK);
    }
    rc := ElbaStr.Ncat(store.buf, s, len);
    if store.size == 0 {
      store.displs := store.displs[0 := 0];
    }
    store.size := store.size + 1;
    store.displs := store.displs[store.size := store.buf.len];
    StringsPush(data, d, n, store.buf.data, store.displs, s.value[..len]);
    rc := SUCCESS;
  }

  /**
   * `elba_str_store_get_len`: the length of string id; an id past the last
   * string or a NULL result argument fails.
   */
  function GetLen(store: StrStore, id: nat, hasOut: bool): (r: Option<nat>)
    reads store, store.buf
    requires store.Valid()
    ensures r.None? <==> id >= store.size || !hasOut
    ensures r.Some? ==> r.value == |store.Strings()[id]|
  {
    if id >= store.size || !hasOut then None
    else Some(Width(store.displs, id))
  }

  /**
   * The loop of `elba_str_store_get_maxlen`: the widest gap between
   * neighbouring displacements among the first n + 1, 0 when n = 0.
   */
  method MaxGap(d: seq<nat>, n: nat) returns (max: nat)
    requires n < |d| && forall k :: 0 <= k < n ==> Width(d, k) >= 0
    ensures forall k :: 0 <= k < n ==> Width(d, k) <= max
    ensures n == 0 ==> max == 0
    ensures n > 0 ==> exists k :: 0 <= k < n && Width(d, k) == max
  {
    max := 0;
    var i := 0;
    while i < n
      invariant i <= n
      invariant forall k :: 0 <= k < i ==> Width(d, k) <= max
      invariant i == 0 ==> max == 0
      invariant i > 0 ==> exists k :: 0 <= k < i && Width(d, k) == max
    {
      var len := Width(d, i);
      max := if len > max then len else max;
      i := i + 1;
    }
  }

  /** `elba_str_store_get_maxlen`: the length of the longest string, 0 for an empty store. */
  method GetMaxlen(store: StrStore, hasOut: bool) returns (rc: int, maxlen: nat)
    requires store.Valid()
    ensures rc == FAILURE <==> !hasOut
    ensures rc == SUCCESS ==> forall i :: 0 <= i < store.size ==> |store.Strings()[i]| <= maxlen
    ensures rc == SUCCESS && store.size == 0 ==> maxlen == 0
    ensures rc == SUCCESS && store.size > 0 ==>
              exists i :: 0 <= i < store.size && |store.Strings()[i]| == maxlen
  {
    if !hasOut {
      return FAILURE, 0;
    }
    ghost var ss := store.Strings();
    if store.size == 0 {
      return SUCCESS, 0;
    }
    maxlen := MaxGap(store.displs, store.size);
    ghost var k :| 0 <= k < store.size && Width(store.displs, k) == maxlen;
    assert |store.Strings()[k]| == maxlen;
    assert forall i :: 0 <= i < store.size ==> |ss[i]| <= maxlen;
    rc := SUCCESS;
  }

  /**
   * `elba_str_store_get_strcpy`: string id and a NUL into the caller's
   * buffer, which must have room for both; an id past the last string fails.
   */
  method GetStrcpy(store: StrStore, id: nat, dst: array<char>) returns (rc: int)
    requires store.Valid()
    requires id < store.size ==> |store.Strings()[id]| < dst.Length
    modifies dst
    ensures rc == FAILURE <==> id >= store.size
    ensures rc == FAILURE ==> unchanged(dst)
    ensures rc == SUCCESS ==>
              dst[..|store.Strings()[id]|] == store.Strings()[id]
              && dst[|store.Strings()[id]|] == '\0'
              && forall k :: |store.Strings()[id]| < k < dst.Length ==> dst[k] == old(dst[k])
  {
    if id >= store.size {
      return FAILURE;
    }
    var off := store.displs[id];
    var len := store.displs[id + 1] - off;
    var data := store.buf.data[off .. off + len];
    assert data == store.Strings()[id];
    CopyTerminated(data, dst);
    rc := SUCCESS;
  }

  /**
   * `elba_str_store_get_strdup`: a fresh NUL-terminated copy of string id;
   * an id past the last string or a NULL result argument fails.
   */
  method GetStrdup(store: StrStore, id: nat, hasOut: bool) returns (rc: int, s: seq<char>)
    requires store.Valid()
    ensures rc == FAILURE <==> id >= store.size || !hasOut
    ensures rc == SUCCESS ==> s == store.Strings()[id] + ['\0']
  {
    if id >= store.size || !hasOut {
      return FAILURE, [];
    }
    var off := store.displs[id];
    var len := store.displs[id + 1] - off;
    var data := store.buf.data[off .. off + len];
    assert data == store.Strings()[id];
    var copy := new char[len + 1];
    CopyTerminated(data, copy);
    s := copy[..];
    assert s == data + ['\0'];
    rc := SUCCESS;
  }

  /** `elba_str_store_free`: NULL fails; otherwise the store returns to `ELBA_STR_STORE_INIT`. */
  method Free(store: StrStore?) returns (rc: int)
    modifies if store == null then {} else {store, store.buf}
    ensures rc == FAILURE <==> store == null
    ensures rc == SUCCESS ==>
              store.buf == old(store.buf) && store.buf.data == [] && store.buf.len == 0
              && store.buf.mem == 0 && store.displs == [] && store.size == 0 && store.mem == 0
              && store.Valid() && store.Strings() == []
  {
    if store == null {
      return FAILURE;
    }
    rc := ElbaStr.Free(store.buf);
    store.displs, store.size, store.mem := [], 0, 0;
    rc := SUCCESS;
  }
}
