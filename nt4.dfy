/**
 * The 2-bit nucleotide code of the packed sequence stores
 * (src/elba_seq_store.c and seq_store.c): `nt4map` turns a symbol into a
 * code 0..4, four codes share a byte (position i in slot i % 4, that is at
 * bit 2 * (i % 4)), and reading back takes the two bits of a slot and looks
 * them up in "ACGTN".
 *
 * Code 4 (any symbol that is not a base) does not fit in two bits: its high
 * bit lands in the low bit of the next slot of the same byte, or falls off
 * the byte in the last slot.
 */
module Nt4Code {

  /** `nt4map`: the code of a symbol; 4 for anything that is not a base. */
  function Nt4(c: char): (code: bv8)
    ensures code <= 4
    ensures code == 0 <==> c in "AaNn"
    ensures code == 1 <==> c in "Cc"
    ensures code == 2 <==> c in "Gg"
    ensures code == 3 <==> c in "TtUu"
  {
    match c
    case 'A' => 0  case 'a' => 0  case 'N' => 0  case 'n' => 0
    case 'C' => 1  case 'c' => 1
    case 'G' => 2  case 'g' => 2
    case 'T' => 3  case 't' => 3  case 'U' => 3  case 'u' => 3
    case _ => 4
  }

  /** `bases`: the letters a 2-bit slot reads back as ('N' is never read). */
  const BASES: seq<char> := ['A', 'C', 'G', 'T', 'N']

  /** A code shifted into slot k of a byte; bits past bit 7 are lost. */
  function Place(code: bv8, k: nat): bv8
    requires k < 4
  {
    code << (k * 2)
  }

  /** The two bits of slot k of a byte. */
  function SlotOf(b: bv8, k: nat): (v: bv8)
    requires k < 4
    ensures v <= 3
  {
    (b >> (k * 2)) & 3
  }

  /** The low bit a code-4 symbol leaves in the next slot. */
  function Carry(prev: bv8): (bit: bv8)
    ensures bit <= 1
  {
    if prev == 4 then 1 else 0
  }

  /** The code at position i of s; positions past the end stay as the zeroed byte. */
  function CodeAt(s: seq<char>, i: nat): (code: bv8)
    ensures code <= 4
    ensures i >= |s| ==> code == 0
  {
    if i < |s| then Nt4(s[i]) else 0
  }

  /** Byte j of the packing of s: positions 4j .. 4j+3 ORed into slots 0 .. 3. */
  function PackedByte(s: seq<char>, j: nat): bv8
  {
    Place(CodeAt(s, 4 * j), 0) | Place(CodeAt(s, 4 * j + 1), 1)
      | Place(CodeAt(s, 4 * j + 2), 2) | Place(CodeAt(s, 4 * j + 3), 3)
  }

  /** The (|s| + 3) / 4 bytes `push` appends for s. */
  function Pack(s: seq<char>): (p: seq<bv8>)
    ensures |p| == (|s| + 3) / 4
    ensures forall j :: 0 <= j < |p| ==> p[j] == PackedByte(s, j)
  {
    seq((|s| + 3) / 4, j requires 0 <= j => PackedByte(s, j))
  }

  /** The letter read back for position i of the entry packed at `off`. */
  function BaseAt(buf: seq<bv8>, off: nat, i: nat): char
    requires off + i / 4 < |buf|
  {
    BASES[SlotOf(buf[off + i / 4], i % 4)]
  }

  /** The bytes an entry of `len` bases at `off` occupies all lie inside the buffer. */
  predicate Fits(buf: seq<bv8>, off: nat, len: nat)
  {
    off + (len + 3) / 4 <= |buf|
  }

  /** The `len` letters `elba_seq_store_get` reads back for the entry at `off`. */
  function Unpack(buf: seq<bv8>, off: nat, len: nat): (r: seq<char>)
    requires Fits(buf, off, len)
    ensures |r| == len
    ensures forall i :: 0 <= i < len ==> r[i] in "ACGT"
  {
    seq(len, i requires 0 <= i < len => BaseAt(buf, off, i))
  }

  /** Only the bytes of the entry matter to what it reads back as. */
  lemma UnpackFrame(buf: seq<bv8>, off: nat, len: nat, buf': seq<bv8>, off': nat)
    requires Fits(buf, off, len) && Fits(buf', off', len)
    requires buf[off .. off + (len + 3) / 4] == buf'[off' .. off' + (len + 3) / 4]
    ensures Unpack(buf, off, len) == Unpack(buf', off', len)
  {
    forall i | 0 <= i < len
      ensures BaseAt(buf, off, i) == BaseAt(buf', off', i)
    {
      assert buf[off .. off + (len + 3) / 4][i / 4] == buf[off + i / 4];
    }
  }

  // ---------------------------------------------------------------------
  // What one packed byte reads back as

  lemma ByteSlot0(c0: bv8, c1: bv8, c2: bv8, c3: bv8)
    requires c0 <= 4 && c1 <= 4 && c2 <= 4 && c3 <= 4
    ensures SlotOf(Place(c0, 0) | Place(c1, 1) | Place(c2, 2) | Place(c3, 3), 0) == c0 & 3
  {
  }

  lemma ByteSlot1(c0: bv8, c1: bv8, c2: bv8, c3: bv8)
    requires c0 <= 4 && c1 <= 4 && c2 <= 4 && c3 <= 4
    ensures SlotOf(Place(c0, 0) | Place(c1, 1) | Place(c2, 2) | Place(c3, 3), 1) == (c1 & 3) | Carry(c0)
  {
  }

  lemma ByteSlot2(c0: bv8, c1: bv8, c2: bv8, c3: bv8)
    requires c0 <= 4 && c1 <= 4 && c2 <= 4 && c3 <= 4
    ensures SlotOf(Place(c0, 0) | Place(c1, 1) | Place(c2, 2) | Place(c3, 3), 2) == (c2 & 3) | Carry(c1)
  {
  }

  lemma ByteSlot3(c0: bv8, c1: bv8, c2: bv8, c3: bv8)
    requires c0 <= 4 && c1 <= 4 && c2 <= 4 && c3 <= 4
    ensures SlotOf(Place(c0, 0) | Place(c1, 1) | Place(c2, 2) | Place(c3, 3), 3) == (c3 & 3) | Carry(c2)
  {
  }

  /**
   * The slot value read back for position i: the symbol's code without its
   * high bit, plus the stray bit of an unknown symbol just before it in the
   * same byte.
   */
  function ReadBack(s: seq<char>, i: nat): (v: bv8)
    requires i < |s|
    ensures v <= 3
  {
    (Nt4(s[i]) & 3) | (if i % 4 != 0 then Carry(Nt4(s[i - 1])) else 0)
  }

  lemma PackedSlot(s: seq<char>, i: nat)
    requires i < |s|
    ensures SlotOf(PackedByte(s, i / 4), i % 4) == ReadBack(s, i)
  {
    var j, k := i / 4, i % 4;
    assert i == 4 * j + k;
    if k == 0 {
      PackedSlot0(s, i, j);
    } else if k == 1 {
      PackedSlot1(s, i, j);
    } else if k == 2 {
      PackedSlot2(s, i, j);
    } else {
      PackedSlot3(s, i, j);
    }
  }

  lemma PackedSlot0(s: seq<char>, i: nat, j: nat)
    requires i < |s| && i == 4 * j && i % 4 == 0
    ensures SlotOf(PackedByte(s, j), 0) == ReadBack(s, i)
  {
    var c0, c1, c2, c3 := CodeAt(s, 4 * j), CodeAt(s, 4 * j + 1), CodeAt(s, 4 * j + 2), CodeAt(s, 4 * j + 3);
    assert ReadBack(s, i) == (c0 & 3);
    ByteSlot0(c0, c1, c2, c3);
  }

  lemma PackedSlot1(s: seq<char>, i: nat, j: nat)
    requires i < |s| && i == 4 * j + 1 && i % 4 == 1
    ensures SlotOf(PackedByte(s, j), 1) == ReadBack(s, i)
  {
    var c0, c1, c2, c3 := CodeAt(s, 4 * j), CodeAt(s, 4 * j + 1), CodeAt(s, 4 * j + 2), CodeAt(s, 4 * j + 3);
    assert ReadBack(s, i) == (c1 & 3) | Carry(c0);
    ByteSlot1(c0, c1, c2, c3);
  }

  lemma PackedSlot2(s: seq<char>, i: nat, j: nat)
    requires i < |s| && i == 4 * j + 2 && i % 4 == 2
    ensures SlotOf(PackedByte(s, j), 2) == ReadBack(s, i)
  {
    var c0, c1, c2, c3 := CodeAt(s, 4 * j), CodeAt(s, 4 * j + 1), CodeAt(s, 4 * j + 2), CodeAt(s, 4 * j + 3);
    assert ReadBack(s, i) == (c2 & 3) | Carry(c1);
    ByteSlot2(c0, c1, c2, c3);
  }

  lemma PackedSlot3(s: seq<char>, i: nat, j: nat)
    requires i < |s| && i == 4 * j + 3 && i % 4 == 3
    ensures SlotOf(PackedByte(s, j), 3) == ReadBack(s, i)
  {
    var c0, c1, c2, c3 := CodeAt(s, 4 * j), CodeAt(s, 4 * j + 1), CodeAt(s, 4 * j + 2), CodeAt(s, 4 * j + 3);
    assert ReadBack(s, i) == (c3 & 3) | Carry(c2);
    ByteSlot3(c0, c1, c2, c3);
  }

  /** What s reads back as once packed, position by position. */
  function Decoded(s: seq<char>): (r: seq<char>)
    ensures |r| == |s|
  {
    seq(|s|, i requires 0 <= i < |s| => BASES[ReadBack(s, i)])
  }

  /** Reading back a packed sequence gives its decoding. */
  lemma UnpackPack(s: seq<char>)
    ensures Fits(Pack(s), 0, |s|)
    ensures Unpack(Pack(s), 0, |s|) == Decoded(s)
  {
    forall i | 0 <= i < |s|
      ensures Unpack(Pack(s), 0, |s|)[i] == Decoded(s)[i]
    {
      PackedSlot(s, i);
    }
  }

  // ---------------------------------------------------------------------
  // Round trip

  /** The letter a base symbol reads back as: A/a/N/n as A, C/c as C, G/g as G, T/t/U/u as T. */
  function Canonical(c: char): (r: char)
    requires Nt4(c) < 4
    ensures r in "ACGT"
  {
    BASES[Nt4(c)]
  }

  /** Every symbol of s is one of the bases nt4map knows. */
  predicate AllBases(s: seq<char>)
  {
    forall i :: 0 <= i < |s| ==> Nt4(s[i]) < 4
  }

  /** Packing then reading back a sequence of bases gives its canonical letters. */
  lemma RoundTrip(s: seq<char>)
    requires AllBases(s)
    ensures Fits(Pack(s), 0, |s|)
    ensures Unpack(Pack(s), 0, |s|) == seq(|s|, i requires 0 <= i < |s| => Canonical(s[i]))
  {
    UnpackPack(s);
    forall i | 0 <= i < |s|
      ensures ReadBack(s, i) == Nt4(s[i])
    {
      if i % 4 != 0 {
        assert Nt4(s[i - 1]) < 4;
      }
    }
  }

  /** Canonical letters are fixed: reading back is idempotent. */
  lemma CanonicalFixed(c: char)
    requires Nt4(c) < 4
    ensures Nt4(Canonical(c)) == Nt4(c) && Canonical(Canonical(c)) == Canonical(c)
  {
  }

  /**
   * An unknown symbol followed by an 'A' in the same byte reads back as
   * "AC": the unknown symbol's high code bit turns the 'A' into a 'C'.
   */
  lemma UnknownSymbolCarries()
    ensures Unpack(Pack("XA"), 0, 2) == "AC"
  {
    UnpackPack("XA");
  }

  /** In the last slot of a byte the stray bit falls off: "AAAX" then "A" reads back as "AAAAA". */
  lemma UnknownSymbolInLastSlot()
    ensures Unpack(Pack("AAAXA"), 0, 5) == "AAAAA"
  {
    UnpackPack("AAAXA");
  }

  // ---------------------------------------------------------------------
  // The packing loop of `push`, one position at a time

  /** Extending the prefix s[..i] by position i changes the code at i only. */
  lemma CodeAtExtend(s: seq<char>, i: nat, k: nat)
    requires i < |s|
    ensures CodeAt(s[..i], i) == 0
    ensures CodeAt(s[..i + 1], k) == if k == i then Nt4(s[i]) else CodeAt(s[..i], k)
  {
  }

  /** Bytes other than i / 4 do not see position i. */
  lemma PackStepOther(s: seq<char>, i: nat, j: nat)
    requires i < |s| && j != i / 4
    ensures PackedByte(s[..i + 1], j) == PackedByte(s[..i], j)
  {
    CodeAtExtend(s, i, 4 * j);
    CodeAtExtend(s, i, 4 * j + 1);
    CodeAtExtend(s, i, 4 * j + 2);
    CodeAtExtend(s, i, 4 * j + 3);
  }

  lemma OrIntoSlot(c0: bv8, c1: bv8, c2: bv8, c3: bv8, k: nat, d: bv8)
    requires k < 4
    requires k == 0 ==> c0 == 0
    requires k == 1 ==> c1 == 0
    requires k == 2 ==> c2 == 0
    requires k == 3 ==> c3 == 0
    ensures Place(if k == 0 then d else c0, 0) | Place(if k == 1 then d else c1, 1)
          | Place(if k == 2 then d else c2, 2) | Place(if k == 3 then d else c3, 3)
         == (Place(c0, 0) | Place(c1, 1) | Place(c2, 2) | Place(c3, 3)) | Place(d, k)
  {
  }

  /** ORing position i into byte i / 4 takes the packing of s[..i] to that of s[..i+1]. */
  lemma PackStepSame(s: seq<char>, i: nat)
    requires i < |s|
    ensures PackedByte(s[..i + 1], i / 4) == PackedByte(s[..i], i / 4) | Place(Nt4(s[i]), i % 4)
  {
    var j, k := i / 4, i % 4;
    assert i == 4 * j + k;
    CodeAtExtend(s, i, 4 * j);
    CodeAtExtend(s, i, 4 * j + 1);
    CodeAtExtend(s, i, 4 * j + 2);
    CodeAtExtend(s, i, 4 * j + 3);
    var t := s[..i];
    OrIntoSlot(CodeAt(t, 4 * j), CodeAt(t, 4 * j + 1), CodeAt(t, 4 * j + 2), CodeAt(t, 4 * j + 3), k, Nt4(s[i]));
  }

  // ---------------------------------------------------------------------
  // The loops of `push` and `elba_seq_store_get`

  /** The first n bytes of the packing of s, zero bytes once s has run out. */
  function PackedPrefix(s: seq<char>, n: nat): (p: seq<bv8>)
    ensures |p| == n
    ensures forall j :: 0 <= j < n ==> p[j] == PackedByte(s, j)
  {
    seq(n, j requires 0 <= j < n => PackedByte(s, j))
  }

  /** Nothing packed yet: the zeroed bytes `memset` leaves. */
  lemma PackedPrefixEmpty(n: nat)
    ensures PackedPrefix([], n) == seq(n, _ => 0 as bv8)
  {
  }

  /**
   * The packing loop of `push`: the buffer is extended by (|s| + 3) / 4
   * zeroed bytes and the code of position i is ORed into slot i % 4 of the
   * i / 4-th of them.
   */
  method AppendPacked(buf: seq<bv8>, s: seq<char>) returns (r: seq<bv8>)
    ensures r == buf + Pack(s)
  {
    var n := (|s| + 3) / 4;
    var tail := seq(n, _ => 0 as bv8);
    PackedPrefixEmpty(n);
    assert s[..0] == [];
    var i := 0;
    while i < |s|
      invariant i <= |s|
      invariant tail == PackedPrefix(s[..i], n)
    {
      PackStep(s, i, n);
      tail := tail[i / 4 := tail[i / 4] | Place(Nt4(s[i]), i % 4)];
      i := i + 1;
    }
    assert s[..i] == s;
    r := buf + tail;
  }

  /** One turn of the packing loop, on the packed bytes alone. */
  lemma PackStep(s: seq<char>, i: nat, n: nat)
    requires i < |s| && n == (|s| + 3) / 4
    ensures i / 4 < n
    ensures PackedPrefix(s[..i + 1], n)
            == PackedPrefix(s[..i], n)[i / 4 := PackedPrefix(s[..i], n)[i / 4] | Place(Nt4(s[i]), i % 4)]
  {
    forall j | 0 <= j < n && j != i / 4
      ensures PackedByte(s[..i + 1], j) == PackedByte(s[..i], j)
    {
      PackStepOther(s, i, j);
    }
    PackStepSame(s, i);
  }

  /**
   * The decoding loop of `elba_seq_store_get` (and `seq_store_get`): a
   * buffer of len + 1 NULs, then letter i read out of slot i % 4 of byte
   * off + i / 4.
   */
  method UnpackInto(buf: seq<bv8>, off: nat, len: nat) returns (s: array<char>)
    requires Fits(buf, off, len)
    ensures fresh(s) && s.Length == len + 1
    ensures s[..len] == Unpack(buf, off, len) && s[len] == '\0'
  {
    s := new char[len + 1](_ => '\0');
    var i := 0;
    while i < len
      invariant i <= len
      invariant forall k :: 0 <= k < i ==> s[k] == BaseAt(buf, off, k)
      invariant s[len] == '\0'
    {
      s[i] := BASES[SlotOf(buf[off + i / 4], i % 4)];
      i := i + 1;
    }
  }
}
