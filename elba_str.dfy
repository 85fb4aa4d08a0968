/**
 * The growable C string `elba_str_t` (src/elba_str.c, inc/elba_str.h).
 *
 * A string owns a buffer of `mem` bytes of which the first `len` are its
 * characters; the byte after them is kept as the terminating NUL by every
 * operation that writes characters.  The buffer is a `seq<char>` field of
 * exactly `mem` elements that the operations reassign: `realloc` keeps the
 * old bytes and appends new ones, which the model fills with NUL.  A NULL
 * buffer is the empty buffer with `mem` = 0.
 *
 * Every operation takes the string by reference and fails on NULL, so each one
 * is a method of the module taking a `Str?`.
 */
module ElbaStr {
  import opened Wrappers
  import opened ElbaError
  import opened Size
  import opened Mem

  class Str {
    var data: seq<char>
    var len: nat
    var mem: nat

    /** `ELBA_STR_INIT`. */
    constructor ()
      ensures data == [] && len == 0 && mem == 0
    {
      data, len, mem := [], 0, 0;
    }

    /** The buffer holds `mem` bytes, and the characters and their terminator fit in it. */
    predicate Valid()
      reads this
    {
      |data| == mem && (mem == 0 ==> len == 0) && (mem > 0 ==> len < mem)
    }

    /** The characters of the string. */
    function Chars(): (r: seq<char>)
      reads this
      requires Valid()
      ensures |r| == len
    {
      data[..len]
    }
  }

  /** `elba_str_str`: the C string a string reads as; "" when empty or freed. */
  function View(s: Str): (r: seq<char>)
    reads s
    requires s.Valid()
    ensures s.len == 0 ==> r == ""
    ensures |r| == s.len
  {
    if s.len == 0 || s.mem == 0 then "" else s.data[..s.len]
  }

  /** `elba_str_free`: NULL fails; otherwise the string becomes `ELBA_STR_INIT`. */
  method Free(s: Str?) returns (rc: int)
    modifies s
    ensures s == null <==> rc == FAILURE
    ensures rc == SUCCESS || rc == FAILURE
    ensures s != null ==> rc == SUCCESS && s.data == [] && s.len == 0 && s.mem == 0
    ensures s != null ==> s.Valid() && View(s) == ""
  {
    if s == null {
      return FAILURE;
    }
    s.data, s.len, s.mem := [], 0, 0;
    rc := SUCCESS;
  }

  /** `elba_str_clear`: the length drops to 0 and the first byte becomes NUL; `mem` is kept. */
  method Clear(s: Str?) returns (rc: int)
    requires s != null ==> s.Valid()
    modifies s
    ensures s == null <==> rc == FAILURE
    ensures rc == SUCCESS || rc == FAILURE
    ensures s != null ==> s.Valid() && s.len == 0 && s.mem == old(s.mem) && View(s) == ""
    ensures s != null && old(s.len) > 0 ==> s.data == old(s.data)[0 := '\0']
    ensures s != null && old(s.len) == 0 ==> s.data == old(s.data)
  {
    if s == null {
      return FAILURE;
    }
    if s.len > 0 {
      s.len := 0;
      s.data := s.data[0 := '\0'];
    }
    rc := SUCCESS;
  }

  /**
   * `elba_str_reserve`: nothing changes when amt + 1 < mem; otherwise the
   * buffer grows to the least power of two that is at least amt + 1.  Either
   * way there is then room for amt characters and a terminator, and the
   * characters are kept.
   */
  method Reserve(s: Str?, amt: nat) returns (rc: int)
    requires s != null ==> s.Valid()
    modifies s
    ensures s == null <==> rc == FAILURE
    ensures rc == SUCCESS || rc == FAILURE
    ensures s != null ==> s.Valid() && s.mem >= amt + 1 && s.mem >= old(s.mem) && s.len == old(s.len)
                          && s.data[..old(s.mem)] == old(s.data)
    ensures s != null && amt + 1 < old(s.mem) ==> unchanged(s)
    ensures s != null && amt + 1 >= old(s.mem) ==>
              s.mem == CeilPow2(amt + 1) && s.data == old(s.data) + Zeros(s.mem - old(s.mem))
  {
    if s == null {
      return FAILURE;
    }
    if amt + 1 < s.mem {
      return SUCCESS;
    }
    var mem := CeilPow2(amt + 1);
    s.data := s.data + Zeros(mem - s.mem);
    s.mem := mem;
    rc := SUCCESS;
  }

  /** `elba_str_grow`: `elba_str_reserve(s, amt + len)`. */
  method Grow(s: Str?, amt: nat) returns (rc: int)
    requires s != null ==> s.Valid()
    modifies s
    ensures s == null <==> rc == FAILURE
    ensures rc == SUCCESS || rc == FAILURE
    ensures s != null ==> s.Valid() && s.mem >= old(s.len) + amt + 1 && s.mem >= old(s.mem)
                          && s.len == old(s.len) && s.data[..old(s.mem)] == old(s.data)
    ensures s != null && old(s.len) + amt + 1 < old(s.mem) ==> unchanged(s)
    ensures s != null && old(s.len) + amt + 1 >= old(s.mem) ==>
              s.mem == CeilPow2(old(s.len) + amt + 1)
  {
    if s == null {
      return FAILURE;
    }
    rc := Reserve(s, amt + s.len);
  }

  /**
   * `elba_str_lit`: the old contents are discarded and the string becomes a
   * copy of `lit` (the characters before its NUL), terminated.
   */
  method Lit(s: Str?, lit: Option<seq<char>>) returns (rc: int)
    requires lit.Some? ==> '\0' !in lit.value
    modifies s
    ensures rc == FAILURE <==> s == null || lit.None?
    ensures rc == SUCCESS || rc == FAILURE
    ensures rc == FAILURE ==> s == null || unchanged(s)
    ensures rc == SUCCESS ==>
              s.Valid() && s.len == |lit.value| && s.mem == CeilPow2(s.len + 1)
              && s.Chars() == lit.value && View(s) == lit.value && s.data[s.len] == '\0'
  {
    if s == null || lit.None? {
      return FAILURE;
    }
    rc := Free(s);
    var n := |lit.value|;
    rc := Reserve(s, n);
    assert s.len == 0 && s.mem == CeilPow2(n + 1) && |s.data| == s.mem;
    s.len := n;
    s.data := lit.value + s.data[n..];
    s.data := s.data[n := '\0'];
    rc := SUCCESS;
  }

  /**
   * `elba_str_move`: dest is freed and takes over src's buffer, length and
   * capacity; src is left empty.
   */
  method Move(dest: Str?, src: Str?) returns (rc: int)
    modifies dest, src
    ensures rc == FAILURE <==> dest == null || src == null
    ensures rc == SUCCESS || rc == FAILURE
    ensures rc == FAILURE ==> (dest != null ==> unchanged(dest)) && (src != null ==> unchanged(src))
    ensures rc == SUCCESS ==> src.data == [] && src.len == 0 && src.mem == 0
    ensures rc == SUCCESS && dest != src ==>
              dest.data == old(src.data) && dest.len == old(src.len) && dest.mem == old(src.mem)
  {
    if dest == null || src == null {
      return FAILURE;
    }
    rc := Free(dest);
    dest.data, dest.len, dest.mem := src.data, src.len, src.mem;
    src.data, src.len, src.mem := [], 0, 0;
    rc := SUCCESS;
  }

  /**
   * `elba_str_copy`, as intended: dest holds a terminated copy of src's
   * characters in a buffer of exactly src.len + 1 bytes.
   */
  method Copy(dest: Str?, src: Str?) returns (rc: int)
    requires src != null ==> src.Valid()
    modifies dest
    ensures rc == FAILURE <==> dest == null || src == null
    ensures rc == SUCCESS || rc == FAILURE
    ensures rc == FAILURE && dest != null ==> unchanged(dest)
    ensures rc == SUCCESS ==>
              dest.Valid() && dest.len == old(src.len) && dest.mem == old(src.len) + 1
              && dest.Chars() == old(src.Chars()) && dest.data[dest.len] == '\0'
  {
    if dest == null || src == null {
      return FAILURE;
    }
    var copy := src.data[..src.len] + ['\0'];
    dest.data, dest.mem, dest.len := copy, src.len + 1, src.len;
    rc := SUCCESS;
  }

  /**
   * `elba_str_ncat`: NULL arguments and n = 0 fail and change nothing;
   * otherwise the first n characters of lit are appended and terminated.
   */
  method Ncat(s: Str?, lit: Option<seq<char>>, n: nat) returns (rc: int)
    requires s != null ==> s.Valid()
    requires lit.Some? ==> n <= |lit.value|
    modifies s
    ensures rc == FAILURE <==> s == null || lit.None? || n == 0
    ensures rc == SUCCESS || rc == FAILURE
    ensures rc == FAILURE && s != null ==> unchanged(s)
    ensures rc == SUCCESS ==>
              s.Valid() && s.len == old(s.len) + n && s.Chars() == old(s.Chars()) + lit.value[..n]
              && s.data[s.len] == '\0' && s.mem >= s.len + 1
  {
    if s == null || lit.None? || n == 0 {
      return FAILURE;
    }
    ghost var before := s.Chars();
    rc := Grow(s, n);
    var len := s.len;
    assert s.data[..len] == before;
    s.data := s.data[..len] + lit.value[..n] + s.data[len + n..];
    s.len := len + n;
    s.data := s.data[s.len := '\0'];
    assert s.data[..s.len] == before + lit.value[..n];
    rc := SUCCESS;
  }
}
