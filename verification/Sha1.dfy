/** The block function of gl/sha1.c: 80 rounds over a circular schedule of 16 words and registers that change
    their roles instead of moving (method 2, section 6.2 of RFC 3174), against the 80-word schedule with
    shifting registers (method 1, section 6.1). */
module Sha1 {
  import opened MachineInts
  import opened Bytes
  import Digest

  datatype Five = Five(a: bv32, b: bv32, c: bv32, d: bv32, e: bv32)

  // ----- Method 1 -----

  function K(t: nat): bv32 {
    if t < 20 then 0x5a827999 else if t < 40 then 0x6ed9eba1 else if t < 60 then 0x8f1bbcdc else 0xca62c1d6
  }

  function Choice(b: bv32, c: bv32, d: bv32): bv32 { (b & c) | (!b & d) }
  function Parity(b: bv32, c: bv32, d: bv32): bv32 { b ^ c ^ d }
  function Majority(b: bv32, c: bv32, d: bv32): bv32 { (b & c) | (b & d) | (c & d) }

  function F(t: nat, b: bv32, c: bv32, d: bv32): bv32 {
    if t < 20 then Choice(b, c, d) else if 40 <= t < 60 then Majority(b, c, d) else Parity(b, c, d)
  }

  /** Word t of the 80-word schedule. */
  function W(block: seq<Byte>, t: nat): bv32
    requires |block| == 64
  {
    if t < 16 then FromBE(block[4 * t..4 * t + 4])
    else Rol(W(block, t - 3) ^ W(block, t - 8) ^ W(block, t - 14) ^ W(block, t - 16), 1)
  }

  /** Addition modulo 2^32, in the order of RFC 3174. */
  function Sum(p: bv32, f: bv32, e: bv32, w: bv32, k: bv32): bv32 {
    p + f + e + w + k
  }

  function Round(t: nat, w: bv32, s: Five): Five {
    var temp := Sum(Rol(s.a, 5), F(t, s.b, s.c, s.d), s.e, w, K(t));
    Five(temp, s.a, Rol(s.b, 30), s.c, s.d)
  }

  function Rounds(block: seq<Byte>, s: Five, t: nat): Five
    requires |block| == 64
  {
    if t == 0 then s else Round(t - 1, W(block, t - 1), Rounds(block, s, t - 1))
  }

  function Add(x: bv32, y: bv32): bv32 { x + y }

  function Plus(s: Five, r: Five): Five {
    Five(Add(s.a, r.a), Add(s.b, r.b), Add(s.c, r.c), Add(s.d, r.d), Add(s.e, r.e))
  }

  function ToRegisters(s: Five): Digest.Registers {
    [s.a, s.b, s.c, s.d, s.e]
  }

  function FromRegisters(r: Digest.Registers): Five
    requires |r| == 5
  {
    Five(r[0], r[1], r[2], r[3], r[4])
  }

  /** The registers after one more block. */
  function Compress(regs: Digest.Registers, block: seq<Byte>): Digest.Registers {
    if |regs| == 5 && |block| == 64 then
      var s := FromRegisters(regs);
      ToRegisters(Plus(s, Rounds(block, s, 80)))
    else regs
  }

  /** SHA-1 as gl/sha1.c sets it up. */
  const ALGORITHM: Digest.Algorithm :=
    Digest.Algorithm([0x67452301, 0xefcdab89, 0x98badcfe, 0x10325476, 0xc3d2e1f0], (r, b) => Compress(r, b), true)

  lemma AlgorithmSound()
    ensures ALGORITHM.Sound() && |ALGORITHM.initial| == 5 && ALGORITHM.bigEndian
  {
    hide Rounds, Plus;
  }

  // ----- Method 2, as in the code -----

  function F1(b: bv32, c: bv32, d: bv32): bv32 { d ^ (b & (c ^ d)) }
  function F2(b: bv32, c: bv32, d: bv32): bv32 { b ^ c ^ d }
  function F3(b: bv32, c: bv32, d: bv32): bv32 { (b & c) | (d & (b | c)) }
  function F4(b: bv32, c: bv32, d: bv32): bv32 { b ^ c ^ d }

  function RoundF(t: nat, b: bv32, c: bv32, d: bv32): bv32 {
    if t < 20 then F1(b, c, d) else if t < 40 then F2(b, c, d) else if t < 60 then F3(b, c, d) else F4(b, c, d)
  }

  lemma F1IsChoice(b: bv32, c: bv32, d: bv32)
    ensures F1(b, c, d) == Choice(b, c, d)
  {
    hide F1, Choice;
    F1Bits(b, c, d);
    ChoiceBits(b, c, d);
  }

  lemma F1Bits(b: bv32, c: bv32, d: bv32)
    ensures F1(b, c, d) == (b & c) | (!b & d)
  {
  }

  lemma ChoiceBits(b: bv32, c: bv32, d: bv32)
    ensures Choice(b, c, d) == (b & c) | (!b & d)
  {
  }

  lemma ParityTwice(b: bv32, c: bv32, d: bv32)
    ensures F2(b, c, d) == Parity(b, c, d) && F4(b, c, d) == Parity(b, c, d)
  {
  }

  lemma F3IsMajority(b: bv32, c: bv32, d: bv32)
    ensures F3(b, c, d) == Majority(b, c, d)
  {
    hide F3, Majority;
    F3Bits(b, c, d);
    MajorityBits(b, c, d);
  }

  lemma F3Bits(b: bv32, c: bv32, d: bv32)
    ensures F3(b, c, d) == (b & c) | (b & d) | (c & d)
  {
  }

  lemma MajorityBits(b: bv32, c: bv32, d: bv32)
    ensures Majority(b, c, d) == (b & c) | (b & d) | (c & d)
  {
  }

  lemma RoundFCorrect(t: nat, b: bv32, c: bv32, d: bv32)
    ensures RoundF(t, b, c, d) == F(t, b, c, d)
  {
    hide F1, F2, F3, F4, Choice, Parity, Majority;
    F1IsChoice(b, c, d);
    ParityTwice(b, c, d);
    F3IsMajority(b, c, d);
  }

  /** E += rol (A, 5) + F (B, C, D) + K + M */
  function AddTo(e: bv32, p: bv32, f: bv32, k: bv32, m: bv32): bv32 {
    e + (p + f + k + m)
  }

  /** The new value of E in the macro R. */
  function NewE(t: nat, a: bv32, b: bv32, c: bv32, d: bv32, e: bv32, m: bv32): bv32 {
    AddTo(e, Rol(a, 5), RoundF(t, b, c, d), K(t), m)
  }

  lemma NewECorrect(t: nat, s: Five, m: bv32)
    ensures Round(t, m, s) == Five(NewE(t, s.a, s.b, s.c, s.d, s.e, m), s.a, Rol(s.b, 30), s.c, s.d)
  {
    hide RoundF, F, K, Rol, Sum, AddTo;
    RoundFCorrect(t, s.b, s.c, s.d);
    SumOrder(Rol(s.a, 5), F(t, s.b, s.c, s.d), s.e, m, K(t));
  }

  lemma SumOrder(p: bv32, f: bv32, e: bv32, m: bv32, k: bv32)
    ensures Sum(p, f, e, m, k) == AddTo(e, p, f, k, m)
  {
  }

  lemma XorOrder(p: bv32, q: bv32, r: bv32, s: bv32)
    ensures p ^ q ^ r ^ s == s ^ r ^ q ^ p
  {
  }

  /** x holds the last 16 words before word t of the schedule (at first the first 16), by their indices modulo 16. */
  ghost predicate Holds(x: seq<bv32>, block: seq<Byte>, t: nat)
    requires |block| == 64
  {
    && |x| == 16
    && forall s: nat :: t <= s + 16 && (s < t || s < 16) ==> x[s % 16] == W(block, s)
  }

  /** The word for round t: read it, or for t >= 16 put it in the place of the word it replaces (macro M). */
  method Schedule(x: array<bv32>, t: nat, ghost block: seq<Byte>) returns (m: bv32)
    requires |block| == 64 && Holds(x[..], block, t)
    modifies x
    ensures m == W(block, t) && Holds(x[..], block, t + 1)
  {
    hide Rol, W, Holds;
    HoldsReads(x[..], block, t);
    HoldsWrite(x[..], block, t);
    if t < 16 {
      m := x[t];
      assert x[..][t := m] == x[..];
    } else {
      var tm := x[t % 16] ^ x[(t - 14) % 16] ^ x[(t - 8) % 16] ^ x[(t - 3) % 16];
      ScheduleWord(block, t, tm);
      ghost var before := x[..];
      x[t % 16] := Rol(tm, 1);
      assert x[..] == before[t % 16 := W(block, t)];
      m := x[t % 16];
    }
  }

  lemma HoldsReads(x: seq<bv32>, block: seq<Byte>, t: nat)
    requires |block| == 64 && Holds(x, block, t)
    ensures |x| == 16
    ensures t < 16 ==> x[t] == W(block, t)
    ensures t >= 16 ==> x[t % 16] == W(block, t - 16) && x[(t - 14) % 16] == W(block, t - 14)
                        && x[(t - 8) % 16] == W(block, t - 8) && x[(t - 3) % 16] == W(block, t - 3)
  {
    hide W;
    if t < 16 {
      assert x[t % 16] == W(block, t);
    } else {
      assert (t - 16) % 16 == t % 16;
      assert x[(t - 16) % 16] == W(block, t - 16);
    }
  }

  lemma HoldsWrite(x: seq<bv32>, block: seq<Byte>, t: nat)
    requires |block| == 64 && Holds(x, block, t)
    ensures |x| == 16 && Holds(x[t % 16 := W(block, t)], block, t + 1)
  {
    hide W;
    var y := x[t % 16 := W(block, t)];
    forall s: nat | t + 1 <= s + 16 && (s < t + 1 || s < 16)
      ensures y[s % 16] == W(block, s)
    {
      if s != t && t >= 16 {
        DifferentSlots(s, t);
      }
    }
  }

  lemma DifferentSlots(s: nat, t: nat)
    requires t < s + 16 && s < t
    ensures s % 16 != t % 16
  {
  }

  lemma ScheduleWord(block: seq<Byte>, t: nat, tm: bv32)
    requires |block| == 64 && t >= 16
    requires tm == W(block, t - 16) ^ W(block, t - 14) ^ W(block, t - 8) ^ W(block, t - 3)
    ensures W(block, t) == Rol(tm, 1)
  {
    hide Rol;
    XorOrder(W(block, t - 16), W(block, t - 14), W(block, t - 8), W(block, t - 3));
  }

  /** sha1_process_block for one block; the 80 unrolled rounds are run five at a time, after which the
      registers have their first roles again. */
  method CompressBlock(regs: Digest.Registers, block: seq<Byte>) returns (r: Digest.Registers)
    requires |regs| == 5 && |block| == 64
    ensures r == Compress(regs, block)
  {
    hide W, Rol, Rounds, FromBE, Holds, Add;
    ghost var s0 := FromRegisters(regs);
    var x := new bv32[16](i => 0);
    for t := 0 to 16
      invariant forall s :: 0 <= s < t ==> x[s] == W(block, s)
    {
      ScheduleStart(block, t);
      x[t] := FromBE(block[4 * t..4 * t + 4]);
    }
    HoldsStart(x[..], block);
    NoRounds(block, s0);
    var a, b, c, d, e := regs[0], regs[1], regs[2], regs[3], regs[4];
    var t := 0;
    while t < 80
      invariant 0 <= t <= 80 && t % 5 == 0
      invariant Holds(x[..], block, t)
      invariant Five(a, b, c, d, e) == Rounds(block, s0, t)
    {
      a, b, c, d, e := FiveRounds(x, t, a, b, c, d, e, block, s0);
      t := t + 5;
    }
    r := [Add(regs[0], a), Add(regs[1], b), Add(regs[2], c), Add(regs[3], d), Add(regs[4], e)];
  }

  lemma HoldsStart(x: seq<bv32>, block: seq<Byte>)
    requires |block| == 64 && |x| == 16 && forall s :: 0 <= s < 16 ==> x[s] == W(block, s)
    ensures Holds(x, block, 0)
  {
    hide W;
  }

  lemma NoRounds(block: seq<Byte>, s: Five)
    requires |block| == 64
    ensures Rounds(block, s, 0) == s
  {
  }

  lemma ScheduleStart(block: seq<Byte>, t: nat)
    requires |block| == 64 && t < 16
    ensures W(block, t) == FromBE(block[4 * t..4 * t + 4])
  {
  }

  /** R (a,b,c,d,e), R (e,a,b,c,d), R (d,e,a,b,c), R (c,d,e,a,b), R (b,c,d,e,a) */
  method FiveRounds(x: array<bv32>, t: nat, a0: bv32, b0: bv32, c0: bv32, d0: bv32, e0: bv32,
                    ghost block: seq<Byte>, ghost s0: Five)
      returns (a: bv32, b: bv32, c: bv32, d: bv32, e: bv32)
    requires |block| == 64 && Holds(x[..], block, t)
    requires Five(a0, b0, c0, d0, e0) == Rounds(block, s0, t)
    modifies x
    ensures Holds(x[..], block, t + 5)
    ensures Five(a, b, c, d, e) == Rounds(block, s0, t + 5)
  {
    hide W, Rol, NewE, Round, Holds;
    a, b, c, d, e := a0, b0, c0, d0, e0;
    var m := Schedule(x, t, block);
    NewECorrect(t, Five(a, b, c, d, e), m);
    e, b := NewE(t, a, b, c, d, e, m), Rol(b, 30);
    assert Five(e, a, b, c, d) == Rounds(block, s0, t + 1);
    m := Schedule(x, t + 1, block);
    NewECorrect(t + 1, Five(e, a, b, c, d), m);
    d, a := NewE(t + 1, e, a, b, c, d, m), Rol(a, 30);
    assert Five(d, e, a, b, c) == Rounds(block, s0, t + 2);
    m := Schedule(x, t + 2, block);
    NewECorrect(t + 2, Five(d, e, a, b, c), m);
    c, e := NewE(t + 2, d, e, a, b, c, m), Rol(e, 30);
    assert Five(c, d, e, a, b) == Rounds(block, s0, t + 3);
    m := Schedule(x, t + 3, block);
    NewECorrect(t + 3, Five(c, d, e, a, b), m);
    b, d := NewE(t + 3, c, d, e, a, b, m), Rol(d, 30);
    assert Five(b, c, d, e, a) == Rounds(block, s0, t + 4);
    m := Schedule(x, t + 4, block);
    NewECorrect(t + 4, Five(b, c, d, e, a), m);
    a, c := NewE(t + 4, b, c, d, e, a, m), Rol(c, 30);
  }

  /** sha1_init_ctx, sha1_process_bytes for each piece, and sha1_finish_ctx: the SHA-1 digest of the pieces together. */
  method DigestOfPieces(pieces: seq<array<Byte>>, addresses: seq<nat>, strictAlignment: bool)
      returns (resbuf: array<Byte>)
    requires |addresses| == |pieces|
    requires forall k :: 0 <= k < |pieces| ==> pieces[k].Length <= SIZE_MAX
    ensures resbuf.Length == 20
    ensures resbuf[..] == Digest.DigestOf(ALGORITHM, Flatten(Digest.Contents(pieces)))
  {
    hide ALGORITHM, Compress, Flatten, Digest.DigestOf;
    AlgorithmSound();
    resbuf := Digest.DigestOfPieces(ALGORITHM, pieces, addresses, strictAlignment);
  }
}
