/** The buffering that gl/md4.c, gl/md5.c and gl/sha1.c share: a message may arrive in pieces of any size,
    and the digest is that of the whole message, padded at once (sections 3.1 to 3.4 of RFC 1321).
    The three files differ in the block function, the initial registers, the byte order and the way the
    padding is written; the block function is a parameter here, so the results hold for each of them. */
module Digest {
  import opened MachineInts
  import opened Bytes

  /** The registers A, B, C, D (and E). */
  type Registers = seq<bv32>

  datatype Algorithm = Algorithm(initial: Registers, compress: (Registers, seq<Byte>) -> Registers, bigEndian: bool) {

    /** The number of registers does not change. */
    ghost predicate Sound() {
      forall r, block :: |r| == |initial| && |block| == 64 ==> |compress(r, block)| == |initial|
    }
  }

  // ----- Reference definition -----

  /** The registers after all 64-byte blocks of data. */
  function Fold(alg: Algorithm, regs: Registers, data: seq<Byte>): Registers
    requires |data| % 64 == 0
    decreases |data|
  {
    if data == [] then regs else Fold(alg, alg.compress(regs, data[..64]), data[64..])
  }

  /** A number below 2^64 as two 32-bit words in the byte order of the algorithm. */
  function LengthBytes(alg: Algorithm, n: int): (b: seq<Byte>)
    requires 0 <= n < TWO_64
    ensures |b| == 8
  {
    if alg.bigEndian then WordBE(n / TWO_32) + WordBE(n % TWO_32) else WordLE(n % TWO_32) + WordLE(n / TWO_32)
  }

  /** One 1 bit, 0 bits up to 56 bytes modulo 64, and the message length in bits modulo 2^64. */
  function Padding(alg: Algorithm, message: seq<Byte>): (p: seq<Byte>)
    ensures (|message| + |p|) % 64 == 0 && 9 <= |p| <= 72
  {
    PaddedLength(|message|);
    [0x80] + Zeros((55 - |message|) % 64) + LengthBytes(alg, 8 * |message| % TWO_64)
  }

  lemma PaddedLength(n: nat)
    ensures (n + 1 + (55 - n) % 64 + 8) % 64 == 0
  {
    var q := (55 - n) / 64;
    DivUnique(n + 1 + (55 - n) % 64 + 8, 64, 1 - q, 0);
  }

  function RegisterBytes(alg: Algorithm, r: bv32): (b: seq<Byte>)
    ensures |b| == 4
  {
    if alg.bigEndian then BitsBE(r) else BitsLE(r)
  }

  /** Reading the bytes of a register in the byte order of the algorithm gives the register. */
  lemma RegisterRead(alg: Algorithm, r: bv32)
    ensures var b := RegisterBytes(alg, r); (if alg.bigEndian then FromBE(b) else FromLE(b)) == r
  {
    BitsRead(r);
  }

  /** The registers as bytes, in the byte order of the algorithm. */
  function Output(alg: Algorithm, regs: Registers): (b: seq<Byte>)
    ensures |b| == 4 * |regs|
    decreases |regs|
  {
    if regs == [] then [] else Output(alg, regs[..|regs| - 1]) + RegisterBytes(alg, regs[|regs| - 1])
  }

  function DigestOf(alg: Algorithm, message: seq<Byte>): seq<Byte> {
    Output(alg, Fold(alg, alg.initial, message + Padding(alg, message)))
  }

  // ----- Folding -----

  lemma {:induction false} FoldAppend(alg: Algorithm, regs: Registers, a: seq<Byte>, b: seq<Byte>)
    requires |a| % 64 == 0 && |b| % 64 == 0
    ensures Fold(alg, regs, a + b) == Fold(alg, Fold(alg, regs, a), b)
    decreases |a|
  {
    if a == [] {
      assert a + b == b;
    } else {
      assert (a + b)[..64] == a[..64] && (a + b)[64..] == a[64..] + b;
      FoldAppend(alg, alg.compress(regs, a[..64]), a[64..], b);
    }
  }

  lemma {:induction false} FoldLength(alg: Algorithm, regs: Registers, data: seq<Byte>)
    requires alg.Sound() && |regs| == |alg.initial| && |data| % 64 == 0
    ensures |Fold(alg, regs, data)| == |alg.initial|
    decreases |data|
  {
    if data != [] {
      FoldLength(alg, alg.compress(regs, data[..64]), data[64..]);
    }
  }

  lemma FoldNone(alg: Algorithm, regs: Registers)
    ensures Fold(alg, regs, []) == regs
  {
  }

  lemma FoldOne(alg: Algorithm, regs: Registers, block: seq<Byte>)
    requires |block| == 64
    ensures Fold(alg, regs, block) == alg.compress(regs, block)
  {
    assert block[..64] == block && block[64..] == [];
    assert Fold(alg, alg.compress(regs, block), []) == alg.compress(regs, block);
  }

  lemma FoldStep(alg: Algorithm, regs: Registers, data: seq<Byte>, i: nat)
    requires i + 64 <= |data| && i % 64 == 0
    ensures Fold(alg, regs, data[..i + 64]) == alg.compress(Fold(alg, regs, data[..i]), data[i..i + 64])
  {
    FoldAppend(alg, regs, data[..i], data[i..i + 64]);
    FoldOne(alg, Fold(alg, regs, data[..i]), data[i..i + 64]);
    assert data[..i] + data[i..i + 64] == data[..i + 64];
  }

  // ----- The two-word counter -----

  /** Adding a length to the counter, word by word with a carry, is addition modulo 2^64. */
  lemma CounterAdd(total0: UInt32, total1: UInt32, len: SizeT, count: nat)
    requires total1 * TWO_32 + total0 == count % TWO_64
    ensures var t0 := (total0 + len % TWO_32) % TWO_32;
            var t1 := (total1 + len / TWO_32 + (if t0 < len % TWO_32 then 1 else 0)) % TWO_32;
            t1 * TWO_32 + t0 == (count + len) % TWO_64
  {
    var lo, hi := len % TWO_32, len / TWO_32;
    var carry := if total0 + lo >= TWO_32 then 1 else 0;
    var t0 := total0 + lo - carry * TWO_32;
    DivUnique(total0 + lo, TWO_32, carry, t0);
    var sum := total1 + hi + carry;
    var t1 := sum % TWO_32;
    DivUnique(count + len, TWO_64, count / TWO_64 + sum / TWO_32, t1 * TWO_32 + t0);
  }

  /** The same for the bytes waiting at the end, few enough to fit one word. */
  lemma CounterAddFew(total0: UInt32, total1: UInt32, few: nat, count: nat)
    requires total1 * TWO_32 + total0 == count % TWO_64 && few <= 64
    ensures var t0 := (total0 + few) % TWO_32;
            var t1 := if t0 < few then (total1 + 1) % TWO_32 else total1;
            t1 * TWO_32 + t0 == (count + few) % TWO_64
  {
    CounterAdd(total0, total1, few, count);
    assert few % TWO_32 == few && few / TWO_32 == 0;
  }

  /** The two words that go into the padding are the length in bits, low 64 bits. */
  lemma BitCount(total0: UInt32, total1: UInt32, count: nat)
    requires total1 * TWO_32 + total0 == count % TWO_64
    ensures var bits := 8 * count % TWO_64;
            && bits % TWO_32 == total0 * 8 % TWO_32
            && bits / TWO_32 == total1 * 8 % TWO_32 + total0 / 0x2000_0000
            && 0 <= bits / TWO_32 < TWO_32
  {
    var lo, up := total0 * 8 % TWO_32, total0 / 0x2000_0000;
    DivUnique(total0 * 8, TWO_32, up, total0 * 8 - up * TWO_32);
    var hi := total1 * 8 % TWO_32;
    assert hi == 8 * (total1 % 0x2000_0000) by {
      DivUnique(total1 * 8, TWO_32, total1 / 0x2000_0000, 8 * (total1 % 0x2000_0000));
    }
    var bits := (hi + up) * TWO_32 + lo;
    DivUnique(8 * count, TWO_64, 8 * (count / TWO_64) + total1 * 8 / TWO_32, bits);
    DivUnique(bits, TWO_32, hi + up, lo);
  }

  // ----- What the registers and the counter stand for -----

  /** The registers and the counter cover the message up to its last few bytes, which are waiting. */
  ghost predicate Covers(alg: Algorithm, regs: Registers, total0: UInt32, total1: UInt32,
                         message: seq<Byte>, waiting: seq<Byte>)
  {
    && |waiting| <= |message|
    && (|message| - |waiting|) % 64 == 0
    && message[|message| - |waiting|..] == waiting
    && regs == Fold(alg, alg.initial, message[..|message| - |waiting|])
    && total1 * TWO_32 + total0 == (|message| - |waiting|) % TWO_64
  }

  lemma CoversMore(alg: Algorithm, regs: Registers, total0: UInt32, total1: UInt32, message: seq<Byte>,
                   waiting: seq<Byte>, chunk: seq<Byte>)
    requires Covers(alg, regs, total0, total1, message, waiting)
    ensures Covers(alg, regs, total0, total1, message + chunk, waiting + chunk)
  {
    assert (message + chunk)[..|message| - |waiting|] == message[..|message| - |waiting|];
    assert (message + chunk)[|message| - |waiting|..] == waiting + chunk;
  }

  lemma CoversCounts(alg: Algorithm, regs: Registers, total0: UInt32, total1: UInt32,
                     message: seq<Byte>, waiting: seq<Byte>)
    requires Covers(alg, regs, total0, total1, message, waiting)
    ensures |waiting| <= |message| && total1 * TWO_32 + total0 == (|message| - |waiting|) % TWO_64
    ensures (|message| - |waiting|) % 64 == 0
  {
  }

  lemma CoversBlocks(alg: Algorithm, regs: Registers, total0: UInt32, total1: UInt32, message: seq<Byte>,
                     blocks: seq<Byte>, rest: seq<Byte>, regs': Registers, total0': UInt32, total1': UInt32)
    requires Covers(alg, regs, total0, total1, message, blocks + rest) && |blocks| % 64 == 0
    requires regs' == Fold(alg, regs, blocks)
    requires total1' * TWO_32 + total0' == (|message| - |blocks + rest| + |blocks|) % TWO_64
    ensures Covers(alg, regs', total0', total1', message, rest)
  {
    hide Fold;
    var done := message[..|message| - |blocks + rest|];
    assert message == done + blocks + rest;
    assert message[..|message| - |rest|] == done + blocks;
    FoldAppend(alg, alg.initial, done, blocks);
    DivUnique(|done| + |blocks|, 64, |done| / 64 + |blocks| / 64, 0);
  }

  lemma Pieces(message: seq<Byte>, data: seq<Byte>, a: nat, b: nat, c: nat, d: nat)
    requires a <= b <= c <= d <= |data|
    ensures message + data[a..b] + data[b..c] + data[c..d] == message + data[a..d]
    ensures c == d ==> message + data[a..b] + data[b..c] == message + data[a..d]
  {
    assert data[a..d] == data[a..b] + data[b..c] + data[c..d];
  }

  /** What is waiting, followed by the padding that finish writes after it, completes the padded message. */
  lemma CoversFinish(alg: Algorithm, regs: Registers, total0: UInt32, total1: UInt32,
                     message: seq<Byte>, waiting: seq<Byte>)
    requires Covers(alg, regs, total0, total1, message, waiting)
    ensures |waiting + Padding(alg, message)| % 64 == 0
    ensures Fold(alg, regs, waiting + Padding(alg, message))
         == Fold(alg, alg.initial, message + Padding(alg, message))
  {
    hide Fold, Padding;
    var done := message[..|message| - |waiting|];
    var last := waiting + Padding(alg, message);
    assert done + last == message + Padding(alg, message);
    DivUnique(|last|, 64, (|message| + |Padding(alg, message)|) / 64 - |done| / 64, 0);
    FoldAppend(alg, alg.initial, done, last);
  }

  /** The number of zero bytes in the padding depends only on how many bytes are waiting. */
  lemma PaddingZeros(n: nat, waiting: nat)
    requires waiting <= 64 && waiting <= n && (n - waiting) % 64 == 0
    ensures (55 - n) % 64 == if waiting < 56 then 55 - waiting else 119 - waiting
  {
    var q := (n - waiting) / 64;
    DivUnique(55 - n, 64, if waiting < 56 then -q else -q - 1, if waiting < 56 then 55 - waiting else 119 - waiting);
  }

  /** fillbuf */
  const FILLBUF: seq<Byte> := [0x80] + Zeros(63)

  /** The two words that finish writes, in the byte order of the algorithm. */
  function WordBytes(alg: Algorithm, w: UInt32): (b: seq<Byte>)
    ensures |b| == 4
  {
    if alg.bigEndian then WordBE(w) else WordLE(w)
  }

  /** What finish writes, from the counter and the number of waiting bytes, is the padding. */
  lemma PaddingWritten(alg: Algorithm, message: seq<Byte>, waiting: nat, total0: UInt32, total1: UInt32)
    requires waiting <= 64 && waiting <= |message| && (|message| - waiting) % 64 == 0
    requires total1 * TWO_32 + total0 == |message| % TWO_64
    ensures var lo := total0 * 8 % TWO_32;
            var hi := total1 * 8 % TWO_32 + total0 / 0x2000_0000;
            var pad := if waiting < 56 then 56 - waiting else 120 - waiting;
            && hi < TWO_32
            && Padding(alg, message) == FILLBUF[..pad] + (if alg.bigEndian then WordBytes(alg, hi) + WordBytes(alg, lo)
                                                          else WordBytes(alg, lo) + WordBytes(alg, hi))
  {
    PaddingZeros(|message|, waiting);
    BitCount(total0, total1, |message|);
    var pad := if waiting < 56 then 56 - waiting else 120 - waiting;
    assert FILLBUF[..pad] == [0x80] + Zeros(pad - 1);
  }

  // ----- The context -----

  lemma SliceOfSlice<T>(s: seq<T>, a: nat, b: nat, i: nat, j: nat)
    requires a + i <= a + j <= b <= |s|
    ensures s[a..b][i..j] == s[a + i..a + j]
  {
    var t, u := s[a..b][i..j], s[a + i..a + j];
    assert |t| == |u| && forall k :: 0 <= k < |t| ==> t[k] == u[k];
  }

  /** A sequence with a piece of it overwritten. */
  function Splice<T>(s: seq<T>, at: nat, piece: seq<T>): (r: seq<T>)
    requires at + |piece| <= |s|
    ensures |r| == |s|
  {
    s[..at] + piece + s[at + |piece|..]
  }

  /** The bytes, and behind them two words. */
  lemma ThreeWritesInOrder<T>(b: seq<T>, n: nat, w1: seq<T>, w2: seq<T>, k: nat, fill: seq<T>)
    requires |w1| == |w2| == 4 && k + |fill| + 8 == n <= |b|
    ensures Splice(Splice(Splice(b, k, fill), n - 8, w1), n - 4, w2)[..n] == b[..k] + fill + (w1 + w2)
  {
    var b1 := Splice(b, k, fill);
    var b2 := Splice(b1, n - 8, w1);
    assert b1[..n - 8] == b[..k] + fill;
    assert b2[..n - 4] == b1[..n - 8] + w1;
  }

  /** Two words at the end, then the bytes between. */
  lemma ThreeWrites<T>(b: seq<T>, n: nat, w1: seq<T>, w2: seq<T>, k: nat, fill: seq<T>)
    requires |w1| == |w2| == 4 && k + |fill| + 8 == n <= |b|
    ensures Splice(Splice(Splice(b, n - 8, w1), n - 4, w2), k, fill)[..n] == b[..k] + fill + (w1 + w2)
  {
    var b1 := Splice(b, n - 8, w1);
    var b2 := Splice(b1, n - 4, w2);
    var b3 := Splice(b2, k, fill);
    assert b1[..n - 4] == b[..n - 8] + w1;
    assert b2[..n] == b[..n - 8] + w1 + w2;
    assert b2[..k] == b[..k];
    assert b2[n - 8..n] == w1 + w2;
    assert b3[n - 8..n] == b2[n - 8..n];
  }

  /** struct md4_ctx, md5_ctx, sha1_ctx. The buffer holds 128 bytes; up to 64 of them wait to be processed. */
  class Context {
    const alg: Algorithm
    const buffer: array<Byte>
    var regs: Registers
    var total0: UInt32
    var total1: UInt32
    var buflen: nat

    /** Everything fed in so far. */
    ghost var message: seq<Byte>

    ghost predicate Valid()
      reads this, buffer
    {
      && alg.Sound()
      && buffer.Length == 128
      && buflen <= 64
      && Covers(alg, regs, total0, total1, message, buffer[..buflen])
    }

    /** md5_init_ctx and its siblings. */
    constructor (alg: Algorithm)
      requires alg.Sound()
      ensures Valid() && fresh(buffer) && this.alg == alg && message == []
    {
      this.alg := alg;
      buffer := new Byte[128](_ => 0);
      regs := alg.initial;
      total0, total1, buflen := 0, 0, 0;
      message := [];
      new;
      assert buffer[..0] == [] == message[..0];
    }

    /** md5_process_block and its siblings: whole blocks, taken from anywhere, the context's own buffer included. */
    method ProcessBlock(data: array<Byte>, start: nat, len: SizeT, ghost count: nat)
      requires start + len <= data.Length && len % 64 == 0
      requires total1 * TWO_32 + total0 == count % TWO_64
      modifies this`regs, this`total0, this`total1
      ensures regs == Fold(alg, old(regs), data[start..start + len])
      ensures total1 * TWO_32 + total0 == (count + len) % TWO_64
    {
      hide Fold;
      CountBytes(len, count);
      var r := FoldBlocks(data, start, len);
      regs := r;
    }

    /** The loop of process_block, on local copies of the registers. */
    method FoldBlocks(data: array<Byte>, start: nat, len: SizeT) returns (r: Registers)
      requires start + len <= data.Length && len % 64 == 0
      ensures r == Fold(alg, regs, data[start..start + len])
    {
      hide Fold;
      FoldNone(alg, regs);
      ghost var d := data[start..start + len];
      assert d == data[..][start..start + len];
      var i := 0;
      r := regs;
      assert d[..0] == [];
      while i < len
        invariant 0 <= i <= len && i % 64 == 0 && (len - i) % 64 == 0
        invariant r == Fold(alg, regs, d[..i])
      {
        var block := data[start + i..start + i + 64];
        FoldStep(alg, regs, d, i);
        SliceOfSlice(data[..], start, start + len, i, i + 64);
        assert block == data[..][start + i..start + (i + 64)];
        r := alg.compress(r, block);
        i := i + 64;
      }
      assert d[..len] == d;
    }

    method CountBytes(len: SizeT, ghost count: nat)
      requires total1 * TWO_32 + total0 == count % TWO_64
      modifies this`total0, this`total1
      ensures total1 * TWO_32 + total0 == (count + len) % TWO_64
    {
      CounterAdd(total0, total1, len, count);
      var lolen := len % TWO_32;
      total0 := (total0 + lolen) % TWO_32;
      total1 := (total1 + len / TWO_32 + (if total0 < lolen then 1 else 0)) % TWO_32;
    }

    /** md5_process_bytes and its siblings. `address` is where data[start] lies in memory: a machine that cannot
        read misaligned words takes another path when it is not a multiple of 4. */
    method ProcessBytes(data: array<Byte>, start: nat, len: SizeT, address: nat, strictAlignment: bool)
      requires Valid() && start + len <= data.Length && data != buffer
      modifies this`regs, this`total0, this`total1, this`buflen, this`message, buffer
      ensures Valid() && message == old(message) + data[start..start + len]
    {
      hide *;
      ghost var d, m0 := data[..], message;
      var middle, rest := FillBuffer(data, start, len);
      ghost var m1 := message;
      assert m1 == m0 + d[start..middle];
      var pos, left := WholeBlocks(data, middle, rest, address + (middle - start), strictAlignment);
      ghost var m2 := message;
      assert m2 == m1 + d[middle..pos];
      KeepRest(data, pos, left);
      assert message == m2 + d[pos..start + len];
      Pieces(m0, d, start, middle, pos, start + len);
      assert data[start..start + len] == d[start..start + len];
    }

    /** Middle part of process_bytes, for 64 bytes or more. */
    method WholeBlocks(data: array<Byte>, start: nat, len: SizeT, address: nat, strictAlignment: bool)
        returns (pos: nat, left: SizeT)
      requires Valid() && start + len <= data.Length && data != buffer && (len > 0 ==> buflen == 0)
      modifies this`regs, this`total0, this`total1, this`message, buffer
      ensures start <= pos && pos + left == start + len
      ensures Valid() && message == old(message) + data[start..pos]
      ensures left <= 64 && (left > 0 ==> buflen == 0)
    {
      hide Covers;
      if len >= 64 {
        if strictAlignment && address % 4 != 0 {
          pos, left := BlocksThroughBuffer(data, start, len);
        } else {
          pos, left := BlocksInPlace(data, start, len);
        }
      } else {
        pos, left := start, len;
        assert data[start..start] == [];
      }
    }

    /** First part of process_bytes: top up a buffer that is not empty, to at most 128 bytes. */
    method FillBuffer(data: array<Byte>, start: nat, len: SizeT) returns (pos: nat, left: SizeT)
      requires Valid() && start + len <= data.Length && data != buffer
      modifies this`regs, this`total0, this`total1, this`buflen, this`message, buffer
      ensures start <= pos && pos + left == start + len
      ensures Valid() && message == old(message) + data[start..pos]
      ensures left > 0 ==> buflen == 0
    {
      hide Covers;
      hide TWO_32;
      if buflen == 0 {
        assert data[start..start] == [];
        return start, len;
      }
      var add: SizeT := if 128 - buflen > len then len else 128 - buflen;
      Append(data, start, add);
      if buflen > 64 {
        DrainBuffer();
      }
      pos, left := start + add, len - add;
    }

    /** More bytes behind those that are waiting. */
    method Append(data: array<Byte>, start: nat, add: SizeT)
      requires Valid() && start + add <= data.Length && buflen + add <= 128 && data != buffer
      modifies this`buflen, this`message, buffer
      ensures buflen == old(buflen) + add && message == old(message) + data[start..start + add]
      ensures Covers(alg, regs, total0, total1, message, buffer[..buflen])
    {
      hide Covers;
      ghost var waiting := buffer[..buflen];
      ghost var chunk := data[start..start + add];
      CoversMore(alg, regs, total0, total1, message, waiting, chunk);
      Memcpy(buffer, buflen, data, start, add);
      assert buffer[..buflen + add] == waiting + chunk;
      message := message + chunk;
      buflen := buflen + add;
    }

    /** Process the whole blocks of an overfull buffer and move the rest to the front. */
    method DrainBuffer()
      requires alg.Sound() && buffer.Length == 128 && 64 < buflen <= 128
      requires Covers(alg, regs, total0, total1, message, buffer[..buflen])
      modifies this`regs, this`total0, this`total1, this`buflen, buffer
      ensures Valid() && buflen == old(buflen) % 64
    {
      hide Covers;
      var whole: SizeT := buflen - buflen % 64;
      ghost var blocks, rest := buffer[..whole], buffer[whole..buflen];
      assert buffer[0..0 + whole] == blocks && buffer[..buflen] == blocks + rest;
      ghost var r, t0, t1 := regs, total0, total1;
      CoversCounts(alg, regs, total0, total1, message, blocks + rest);
      ProcessBlock(buffer, 0, whole, |message| - |blocks + rest|);
      CoversBlocks(alg, r, t0, t1, message, blocks, rest, regs, total0, total1);
      buflen := buflen % 64;
      Memcpy(buffer, 0, buffer, whole, buflen);
      assert buffer[..buflen] == rest;
    }

    /** Middle part: process whole blocks where they are. */
    method BlocksInPlace(data: array<Byte>, start: nat, len: SizeT) returns (pos: nat, left: SizeT)
      requires Valid() && start + len <= data.Length && data != buffer && buflen == 0
      modifies this`regs, this`total0, this`total1, this`message
      ensures start <= pos && pos + left == start + len
      ensures Valid() && message == old(message) + data[start..pos]
      ensures left == len % 64
    {
      hide Covers;
      var whole: SizeT := len - len % 64;
      ghost var blocks, r, t0, t1 := data[start..start + whole], regs, total0, total1;
      CoversMore(alg, regs, total0, total1, message, buffer[..0], blocks);
      CoversCounts(alg, regs, total0, total1, message, buffer[..0]);
      assert buffer[..0] + blocks == blocks + [];
      ProcessBlock(data, start, whole, |message|);
      message := message + blocks;
      CoversBlocks(alg, r, t0, t1, message, blocks, [], regs, total0, total1);
      assert buffer[..0] == [];
      pos, left := start + whole, len - whole;
    }

    /** Middle part for misaligned data: copy each block into the buffer; up to 64 bytes are left. */
    method BlocksThroughBuffer(data: array<Byte>, start: nat, len: SizeT) returns (pos: nat, left: SizeT)
      requires Valid() && start + len <= data.Length && data != buffer && buflen == 0
      modifies this`regs, this`total0, this`total1, this`message, buffer
      ensures start <= pos && pos + left == start + len
      ensures Valid() && message == old(message) + data[start..pos]
      ensures left <= 64
    {
      hide Covers;
      pos, left := start, len;
      assert data[start..start] == [];
      while left > 64
        invariant Valid() && buflen == 0
        invariant start <= pos && pos + left == start + len
        invariant message == old(message) + data[start..pos]
      {
        OneThroughBuffer(data, pos);
        assert data[start..pos + 64] == data[start..pos] + data[pos..pos + 64];
        pos, left := pos + 64, left - 64;
      }
    }

    method OneThroughBuffer(data: array<Byte>, pos: nat)
      requires Valid() && pos + 64 <= data.Length && data != buffer && buflen == 0
      modifies this`regs, this`total0, this`total1, this`message, buffer
      ensures Valid() && message == old(message) + data[pos..pos + 64]
    {
      hide Covers;
      ghost var block, r, t0, t1 := data[pos..pos + 64], regs, total0, total1;
      assert buffer[..0] == [];
      Memcpy(buffer, 0, data, pos, 64);
      CoversMore(alg, regs, total0, total1, message, [], block);
      CoversCounts(alg, regs, total0, total1, message, []);
      assert [] + block == block + [];
      assert buffer[0..0 + 64] == block;
      ProcessBlock(buffer, 0, 64, |message|);
      message := message + block;
      CoversBlocks(alg, r, t0, t1, message, block, [], regs, total0, total1);
      assert buffer[..0] == [];
    }

    /** Last part: what is left, at most 64 bytes, goes into the buffer. */
    method KeepRest(data: array<Byte>, start: nat, len: SizeT)
      requires Valid() && start + len <= data.Length && data != buffer && len <= 64 && (len > 0 ==> buflen == 0)
      modifies this`regs, this`total0, this`total1, this`buflen, this`message, buffer
      ensures Valid() && message == old(message) + data[start..start + len]
    {
      hide Covers;
      if len == 0 {
        assert data[start..start] == [];
        return;
      }
      var leftOver := buflen;
      ghost var chunk := data[start..start + len];
      CoversMore(alg, regs, total0, total1, message, [], chunk);
      assert buffer[..0] == [];
      Memcpy(buffer, leftOver, data, start, len);
      message := message + chunk;
      leftOver := leftOver + len;
      assert buffer[..leftOver] == [] + chunk;
      if leftOver >= 64 {
        ghost var r, t0, t1 := regs, total0, total1;
        CoversCounts(alg, regs, total0, total1, message, chunk);
        assert buffer[0..0 + 64] == chunk == chunk + [];
        ProcessBlock(buffer, 0, 64, |message| - 64);
        CoversBlocks(alg, r, t0, t1, message, chunk, [], regs, total0, total1);
        leftOver := leftOver - 64;
        Memcpy(buffer, 0, buffer, 64, leftOver);
        assert buffer[..leftOver] == [];
      }
      buflen := leftOver;
    }

    /** buffer[k] = SWAP (w), the buffer read as an array of words. */
    method PutWord(k: nat, w: UInt32)
      requires buffer.Length == 128 && k < 32
      modifies buffer
      ensures buffer[..] == Splice(old(buffer[..]), 4 * k, WordBytes(alg, w))
    {
      StoreSeq(buffer, 4 * k, WordBytes(alg, w));
      assert buffer[..] == old(buffer[..])[..4 * k] + WordBytes(alg, w) + old(buffer[..])[4 * k + 4..];
    }

    method PutBytes(at: nat, bytes: seq<Byte>)
      requires at + |bytes| <= buffer.Length
      modifies buffer
      ensures buffer[..] == Splice(old(buffer[..]), at, bytes)
    {
      StoreSeq(buffer, at, bytes);
      assert buffer[..] == old(buffer[..])[..at] + bytes + old(buffer[..])[at + |bytes|..];
    }

    /** md5_read_ctx and its siblings. */
    method ReadCtx(resbuf: array<Byte>)
      requires resbuf.Length >= 4 * |regs|
      modifies resbuf
      ensures resbuf[..4 * |regs|] == Output(alg, regs)
      ensures resbuf[4 * |regs|..] == old(resbuf[4 * |regs|..])
    {
      var i := 0;
      while i < |regs|
        invariant 0 <= i <= |regs|
        invariant resbuf[..4 * i] == Output(alg, regs[..i])
        invariant resbuf[4 * |regs|..] == old(resbuf[4 * |regs|..])
      {
        StoreSeq(resbuf, 4 * i, RegisterBytes(alg, regs[i]));
        assert regs[..i + 1][..i] == regs[..i];
        i := i + 1;
      }
      assert regs[..|regs|] == regs;
    }

    /** The last step of finish, once the buffer holds what was waiting and the padding. */
    method FinishBuffer(size: SizeT, resbuf: array<Byte>, ghost waiting: seq<Byte>, ghost count: nat,
                        ghost t0: UInt32, ghost t1: UInt32)
      requires alg.Sound() && buffer.Length == 128 && size <= 128 && resbuf != buffer
      requires resbuf.Length >= 4 * |alg.initial|
      requires Covers(alg, regs, t0, t1, message, waiting)
      requires buffer[..size] == waiting + Padding(alg, message)
      requires total1 * TWO_32 + total0 == count % TWO_64
      modifies this`regs, this`total0, this`total1, resbuf
      ensures resbuf[..4 * |alg.initial|] == DigestOf(alg, message)
      ensures resbuf[4 * |alg.initial|..] == old(resbuf[4 * |alg.initial|..])
    {
      hide Covers, Fold, Padding, Output;
      CoversFinish(alg, regs, t0, t1, message, waiting);
      assert buffer[0..0 + size] == buffer[..size];
      ProcessBlock(buffer, 0, size, count);
      FoldLength(alg, alg.initial, message + Padding(alg, message));
      ReadCtx(resbuf);
    }

    /** Count the bytes that are still waiting. */
    method CountWaiting()
      requires Valid()
      modifies this`total0, this`total1
      ensures total1 * TWO_32 + total0 == |message| % TWO_64
    {
      hide Covers;
      CoversCounts(alg, regs, total0, total1, message, buffer[..buflen]);
      CounterAddFew(total0, total1, buflen, |message| - buflen);
      total0 := (total0 + buflen) % TWO_32;
      if total0 < buflen {
        total1 := (total1 + 1) % TWO_32;
      }
    }

    /** The writes of md5_finish_ctx and sha1_finish_ctx: first the length, then the bytes before it. */
    method WritePadding(first: UInt32, second: UInt32) returns (size: SizeT)
      requires buffer.Length == 128 && buflen <= 64
      modifies buffer
      ensures size == if buflen < 56 then 64 else 128
      ensures buffer[..size]
           == old(buffer[..buflen]) + FILLBUF[..size - 8 - buflen] + (WordBytes(alg, first) + WordBytes(alg, second))
    {
      hide WordBytes, Zeros, Splice;
      var words := if buflen < 56 then 64 / 4 else 64 * 2 / 4;
      ghost var fill := FILLBUF[..(words - 2) * 4 - buflen];
      ghost var b0 := buffer[..];
      PutWord(words - 2, first);
      PutWord(words - 1, second);
      PutBytes(buflen, FILLBUF[..(words - 2) * 4 - buflen]);
      size := 4 * words;
      ThreeWrites(b0, size, WordBytes(alg, first), WordBytes(alg, second), buflen, fill);
    }

    /** The writes of md4_finish_ctx: first the padding, then the length. */
    method WritePaddingMd4(first: UInt32, second: UInt32) returns (size: SizeT)
      requires buffer.Length == 128 && buflen <= 64
      modifies buffer
      ensures size == if buflen < 56 then 64 else 128
      ensures buffer[..size]
           == old(buffer[..buflen]) + FILLBUF[..size - 8 - buflen] + (WordBytes(alg, first) + WordBytes(alg, second))
    {
      hide WordBytes, Zeros, Splice;
      ghost var b0 := buffer[..];
      var pad := if buflen >= 56 then 64 + 56 - buflen else 56 - buflen;
      PutBytes(buflen, FILLBUF[..pad]);
      PutWord((buflen + pad) / 4, first);
      PutWord((buflen + pad) / 4 + 1, second);
      size := buflen + pad + 8;
      ThreeWritesInOrder(b0, size, WordBytes(alg, first), WordBytes(alg, second), buflen, FILLBUF[..pad]);
    }

    /** md5_finish_ctx and sha1_finish_ctx */
    method Finish(resbuf: array<Byte>)
      requires Valid() && resbuf != buffer && resbuf.Length >= 4 * |alg.initial|
      modifies this`regs, this`total0, this`total1, buffer, resbuf
      ensures resbuf[..4 * |alg.initial|] == old(DigestOf(alg, message))
      ensures resbuf[4 * |alg.initial|..] == old(resbuf[4 * |alg.initial|..])
    {
      hide Covers, Fold, Output, Padding, WordBytes, Zeros;
      ghost var waiting, t0, t1 := buffer[..buflen], total0, total1;
      CoversCounts(alg, regs, total0, total1, message, waiting);
      CountWaiting();
      PaddingWritten(alg, message, buflen, total0, total1);
      var lo: UInt32, hi: UInt32 := total0 * 8 % TWO_32, total1 * 8 % TWO_32 + total0 / 0x2000_0000;
      var size := WritePadding(if alg.bigEndian then hi else lo, if alg.bigEndian then lo else hi);
      assert buffer[..size] == waiting + Padding(alg, message);
      FinishBuffer(size, resbuf, waiting, |message|, t0, t1);
    }

    /** md4_finish_ctx */
    method FinishMd4(resbuf: array<Byte>)
      requires Valid() && resbuf != buffer && resbuf.Length >= 4 * |alg.initial| && !alg.bigEndian
      modifies this`regs, this`total0, this`total1, buffer, resbuf
      ensures resbuf[..4 * |alg.initial|] == old(DigestOf(alg, message))
      ensures resbuf[4 * |alg.initial|..] == old(resbuf[4 * |alg.initial|..])
    {
      hide Covers, Fold, Output, Padding, WordBytes, Zeros;
      ghost var waiting, t0, t1 := buffer[..buflen], total0, total1;
      CoversCounts(alg, regs, total0, total1, message, waiting);
      CountWaiting();
      PaddingWritten(alg, message, buflen, total0, total1);
      var lo: UInt32, hi: UInt32 := total0 * 8 % TWO_32, total1 * 8 % TWO_32 + total0 / 0x2000_0000;
      var size := WritePaddingMd4(lo, hi);
      assert buffer[..size] == waiting + Padding(alg, message);
      FinishBuffer(size, resbuf, waiting, |message|, t0, t1);
    }
  }

  /** A context that has been fed these pieces, at these addresses. */
  method FeedPieces(alg: Algorithm, pieces: seq<array<Byte>>, addresses: seq<nat>, strictAlignment: bool)
      returns (ctx: Context)
    requires alg.Sound() && |addresses| == |pieces|
    requires forall k :: 0 <= k < |pieces| ==> pieces[k].Length <= SIZE_MAX
    ensures fresh(ctx) && fresh(ctx.buffer) && ctx.alg == alg && ctx.Valid()
    ensures ctx.message == Flatten(Contents(pieces))
  {
    hide Covers, Flatten;
    ctx := new Context(alg);
    FlattenNothing();
    assert Contents(pieces[..0]) == [];
    for k := 0 to |pieces|
      invariant fresh(ctx) && fresh(ctx.buffer) && ctx.alg == alg && ctx.Valid()
      invariant ctx.message == Flatten(Contents(pieces[..k]))
    {
      ctx.ProcessBytes(pieces[k], 0, pieces[k].Length, addresses[k], strictAlignment);
      assert pieces[k][0..0 + pieces[k].Length] == pieces[k][..];
      FlattenOneMore(Contents(pieces[..k]), pieces[k][..]);
      assert Contents(pieces[..k]) + [pieces[k][..]] == Contents(pieces[..k + 1]);
    }
    assert pieces[..|pieces|] == pieces;
  }

  lemma FlattenNothing()
    ensures Flatten<Byte>([]) == []
  {
  }

  lemma FlattenOneMore(pieces: seq<seq<Byte>>, piece: seq<Byte>)
    ensures Flatten(pieces + [piece]) == Flatten(pieces) + piece
  {
    FlattenAppend(pieces, [piece]);
    assert Flatten([piece]) == piece;
  }

  /** Any way of cutting a message into pieces, at any addresses, gives the digest of the whole message. */
  method DigestOfPieces(alg: Algorithm, pieces: seq<array<Byte>>, addresses: seq<nat>, strictAlignment: bool)
      returns (resbuf: array<Byte>)
    requires alg.Sound() && |addresses| == |pieces|
    requires forall k :: 0 <= k < |pieces| ==> pieces[k].Length <= SIZE_MAX
    ensures resbuf.Length == 4 * |alg.initial| && resbuf[..] == DigestOf(alg, Flatten(Contents(pieces)))
  {
    hide Fold, Output, Padding, Covers, Flatten;
    var ctx := FeedPieces(alg, pieces, addresses, strictAlignment);
    resbuf := new Byte[4 * |alg.initial|](_ => 0);
    ctx.Finish(resbuf);
  }

  /** The same with `md4_finish_ctx`. */
  method DigestOfPiecesMd4(alg: Algorithm, pieces: seq<array<Byte>>, addresses: seq<nat>, strictAlignment: bool)
      returns (resbuf: array<Byte>)
    requires alg.Sound() && !alg.bigEndian && |addresses| == |pieces|
    requires forall k :: 0 <= k < |pieces| ==> pieces[k].Length <= SIZE_MAX
    ensures resbuf.Length == 4 * |alg.initial| && resbuf[..] == DigestOf(alg, Flatten(Contents(pieces)))
  {
    hide Fold, Output, Padding, Covers, Flatten;
    var ctx := FeedPieces(alg, pieces, addresses, strictAlignment);
    resbuf := new Byte[4 * |alg.initial|](_ => 0);
    ctx.FinishMd4(resbuf);
  }

  function Contents(pieces: seq<array<Byte>>): (c: seq<seq<Byte>>)
    reads pieces
    ensures |c| == |pieces| && forall k :: 0 <= k < |c| ==> c[k] == pieces[k][..]
  {
    seq(|pieces|, k requires 0 <= k < |pieces| reads pieces => pieces[k][..])
  }
}
