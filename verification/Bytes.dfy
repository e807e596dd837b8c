/** Bytes, 32-bit words, and C's memcpy. */
module Bytes {
  import opened MachineInts

  type Byte = bv8

  /** The 32 bits of w, least significant byte first. */
  function WordLE(w: UInt32): (b: seq<Byte>)
    ensures |b| == 4
  {
    [(w % 256) as Byte, (w / 0x100 % 256) as Byte, (w / 0x1_0000 % 256) as Byte, (w / 0x100_0000 % 256) as Byte]
  }

  /** The 32 bits of w, most significant byte first. */
  function WordBE(w: UInt32): (b: seq<Byte>)
    ensures |b| == 4
  {
    [(w / 0x100_0000 % 256) as Byte, (w / 0x1_0000 % 256) as Byte, (w / 0x100 % 256) as Byte, (w % 256) as Byte]
  }

  function BitsLE(w: bv32): (b: seq<Byte>)
    ensures |b| == 4
  {
    [(w & 0xff) as Byte, ((w >> 8) & 0xff) as Byte, ((w >> 16) & 0xff) as Byte, ((w >> 24) & 0xff) as Byte]
  }

  function BitsBE(w: bv32): (b: seq<Byte>)
    ensures |b| == 4
  {
    [((w >> 24) & 0xff) as Byte, ((w >> 16) & 0xff) as Byte, ((w >> 8) & 0xff) as Byte, (w & 0xff) as Byte]
  }

  /** The word with these bytes, most significant byte first. */
  function Join(b0: Byte, b1: Byte, b2: Byte, b3: Byte): bv32 {
    (b0 as bv32 << 24) | (b1 as bv32 << 16) | (b2 as bv32 << 8) | b3 as bv32
  }

  function FromBE(b: seq<Byte>): bv32
    requires |b| == 4
  {
    Join(b[0], b[1], b[2], b[3])
  }

  function FromLE(b: seq<Byte>): bv32
    requires |b| == 4
  {
    Join(b[3], b[2], b[1], b[0])
  }

  // The orders of bytes.

  lemma LowestFirst(w: UInt32)
    ensures WordLE(w)[0] == (w % 256) as Byte && WordLE(w)[3] == (w / 0x100_0000) as Byte
    ensures forall i :: 0 <= i < 4 ==> WordBE(w)[i] == WordLE(w)[3 - i]
  {
    assert w / 0x100_0000 % 256 == w / 0x100_0000;
  }

  lemma BitsHighestFirst()
    ensures BitsBE(0x01020304) == [1, 2, 3, 4] && FromBE([1, 2, 3, 4]) == 0x01020304
  {
  }

  lemma BitsLowestFirst()
    ensures BitsLE(0x01020304) == [4, 3, 2, 1] && FromLE([4, 3, 2, 1]) == 0x01020304
  {
  }

  lemma BitsRead(w: bv32)
    ensures FromBE(BitsBE(w)) == w && FromLE(BitsLE(w)) == w
  {
  }

  function XorByte(x: Byte, y: Byte): Byte {
    x ^ y
  }

  lemma XorByteLaws(x: Byte, y: Byte)
    ensures XorByte(x, y) == XorByte(y, x)
    ensures XorByte(x, 0) == x && XorByte(0, x) == x
    ensures XorByte(XorByte(x, y), y) == x
  {
  }

  /** Exclusive or of words. */
  function Xor(x: bv32, y: bv32): bv32 { x ^ y }

  lemma XorTwice(x: bv32, y: bv32)
    ensures Xor(Xor(x, y), y) == x
  {
  }

  lemma XorCommutes(x: bv32, y: bv32)
    ensures Xor(x, y) == Xor(y, x)
  {
  }

  lemma XorAssociates(x: bv32, y: bv32, z: bv32)
    ensures Xor(Xor(x, y), z) == Xor(x, Xor(y, z))
  {
  }

  function Rol(x: bv32, n: nat): bv32
    requires n <= 32
  {
    (x << n) | (x >> (32 - n))
  }

  lemma RolTurns()
    ensures Rol(0x01234567, 4) == 0x12345670 && Rol(0x01234567, 28) == 0x70123456 && Rol(0x80000001, 1) == 3
  {
  }

  function Zeros(n: nat): (s: seq<Byte>)
    ensures |s| == n && forall i :: 0 <= i < n ==> s[i] == 0
  {
    seq(n, _ => 0)
  }

  /** All chunks in one sequence. */
  function Flatten<T>(chunks: seq<seq<T>>): seq<T> {
    if chunks == [] then [] else chunks[0] + Flatten(chunks[1..])
  }

  lemma {:induction false} FlattenAppend<T>(a: seq<seq<T>>, b: seq<seq<T>>)
    ensures Flatten(a + b) == Flatten(a) + Flatten(b)
  {
    if a == [] {
      assert a + b == b;
    } else {
      FlattenAppend(a[1..], b);
      assert (a + b)[0] == a[0] && (a + b)[1..] == a[1..] + b;
      Regrouped(a[0], Flatten(a[1..]), Flatten(b));
    }
  }

  lemma Regrouped<T>(a: seq<T>, b: seq<T>, c: seq<T>)
    ensures a + (b + c) == a + b + c
  {
  }

  /** memcpy: the regions must not overlap. */
  method Memcpy<T>(dst: array<T>, d: nat, src: array<T>, s: nat, n: nat)
    requires d + n <= dst.Length && s + n <= src.Length
    requires dst != src || d + n <= s || s + n <= d
    modifies dst
    ensures dst[..] == old(dst[..d]) + old(src[s..s + n]) + old(dst[d + n..])
    ensures dst[d..d + n] == old(src[s..s + n]) && dst[..d] == old(dst[..d]) && dst[d + n..] == old(dst[d + n..])
  {
    forall i | 0 <= i < n {
      dst[d + i] := src[s + i];
    }
    assert dst[..] == dst[..d] + dst[d..d + n] + dst[d + n..];
  }

  /** memcpy from a constant table. */
  method StoreSeq<T>(dst: array<T>, d: nat, src: seq<T>)
    requires d + |src| <= dst.Length
    modifies dst
    ensures dst[..] == old(dst[..d]) + src + old(dst[d + |src|..])
  {
    forall i | 0 <= i < |src| {
      dst[d + i] := src[i];
    }
    assert dst[..] == dst[..d] + dst[d..d + |src|] + dst[d + |src|..];
  }
}
