/**
 * The few C library memory operations the buffers are built from: what
 * `realloc` appends, and `memcpy`, of a string followed by its terminating
 * NUL or of any run of elements.
 */
module Mem {

  /** NUL bytes standing for the uninitialised tail `realloc` adds. */
  function Zeros(n: nat): (z: seq<char>)
    ensures |z| == n && forall i :: 0 <= i < n ==> z[i] == '\0'
  {
    seq(n, _ => '\0')
  }

  /** `realloc` of a buffer to m >= its size: the old bytes, then fresh ones. */
  function Realloc(data: seq<char>, m: nat): (r: seq<char>)
    requires |data| <= m
    ensures |r| == m && r[..|data|] == data
    ensures forall i :: |data| <= i < m ==> r[i] == '\0'
  {
    data + Zeros(m - |data|)
  }

  /** A slice of a prefix is the slice itself. */
  lemma SliceOfPrefix<T>(xs: seq<T>, lo: nat, hi: nat, e: nat)
    requires lo <= hi <= e <= |xs|
    ensures xs[lo .. hi] == xs[..e][lo .. hi]
  {
  }

  /** A slice cut in two at j. */
  lemma SliceSplit<T>(xs: seq<T>, i: nat, j: nat, k: nat)
    requires i <= j <= k <= |xs|
    ensures xs[i .. k] == xs[i .. j] + xs[j .. k]
  {
  }

  /** A slice of a slice is a slice of the whole, shifted. */
  lemma SliceOfSlice<T>(xs: seq<T>, lo: nat, hi: nat, a: nat, b: nat)
    requires lo <= hi <= |xs| && a <= b <= hi - lo
    ensures xs[lo .. hi][a .. b] == xs[lo + a .. lo + b]
  {
    forall i | 0 <= i < b - a
      ensures xs[lo .. hi][a .. b][i] == xs[lo + a .. lo + b][i]
    {
    }
  }

  /** The `memcpy` of a string into a buffer followed by its NUL. */
  method CopyTerminated(s: seq<char>, dst: array<char>)
    requires |s| < dst.Length
    modifies dst
    ensures dst[..|s|] == s && dst[|s|] == '\0'
    ensures forall k :: |s| < k < dst.Length ==> dst[k] == old(dst[k])
  {
    forall k | 0 <= k < |s| {
      dst[k] := s[k];
    }
    dst[|s|] := '\0';
  }

  /** Taking a piece off the front of what remains of a sequence. */
  lemma SliceStep<T>(whole: seq<T>, k: nat, piece: seq<T>, rest: seq<T>)
    requires k <= |whole| && whole[k..] == piece + rest
    ensures k + |piece| <= |whole|
    ensures whole[..k + |piece|] == whole[..k] + piece && whole[k + |piece|..] == rest
  {
    assert whole[..k + |piece|] == whole[..k] + whole[k..][..|piece|];
    assert whole[k..][..|piece|] == piece;
    assert whole[k + |piece|..] == whole[k..][|piece|..];
  }

  /** `memcpy(dst + at, src, |src|)`. */
  method MemCpy<T>(dst: array<T>, at: nat, src: seq<T>)
    requires at + |src| <= dst.Length
    modifies dst
    ensures dst[..at + |src|] == old(dst[..at]) + src
    ensures dst[at + |src| ..] == old(dst[at + |src| ..])
  {
    forall k | at <= k < at + |src| {
      dst[k] := src[k - at];
    }
    assert dst[..at + |src|] == old(dst[..at]) + src;
  }

  /** `realloc` of an array to m elements: what fits of the old ones, then `fill` for the fresh ones. */
  function Resized<T>(xs: seq<T>, m: nat, fill: T): (r: seq<T>)
    ensures |r| == m
    ensures forall i :: 0 <= i < m && i < |xs| ==> r[i] == xs[i]
    ensures forall i :: |xs| <= i < m ==> r[i] == fill
  {
    if m <= |xs| then xs[..m] else xs + seq(m - |xs|, _ => fill)
  }
}
