/** The block functions of gl/md5.c and gl/md4.c: four registers that change their roles from step to step, against the
    definitions in section 3.4 of RFC 1321 and of RFC 1320. */
module MdRounds {
  import opened Bytes
  import Digest

  /** One step: the word and the constant that are added, and the places of the rotation. */
  datatype Op = Op(word: nat, shift: nat, constant: bv32) {
    predicate Valid() { word < 16 && shift <= 32 }
  }

  /** The function that a step applies to three registers, by the number of the step. */
  type Mix = (nat, bv32, bv32, bv32) -> bv32

  /** MD5 adds the next register after the rotation, MD4 does not. */
  datatype Variant = Variant(steps: nat, op: nat -> Op, mix: Mix, addNext: bool) {
    ghost predicate Valid() {
      steps % 4 == 0 && forall i :: 0 <= i < steps ==> op(i).Valid()
    }
  }

  datatype Four = Four(a: bv32, b: bv32, c: bv32, d: bv32)

  // ----- Definition, with registers that shift -----

  /** Word k of a block. */
  function Word(block: seq<Byte>, k: nat): bv32
    requires |block| == 64 && k < 16
  {
    FromLE(block[4 * k..4 * k + 4])
  }

  function Sum(a: bv32, f: bv32, w: bv32, t: bv32): bv32 { a + f + w + t }
  function Plus(x: bv32, y: bv32): bv32 { x + y }

  /** The value that a step gives to its first register. */
  function NewA(v: Variant, i: nat, w: bv32, a: bv32, b: bv32, c: bv32, d: bv32): bv32
    requires v.op(i).Valid()
  {
    var rotated := Rol(Sum(a, v.mix(i, b, c, d), w, v.op(i).constant), v.op(i).shift);
    if v.addNext then Plus(b, rotated) else rotated
  }

  function Step(v: Variant, block: seq<Byte>, i: nat, s: Four): Four
    requires |block| == 64 && v.op(i).Valid()
  {
    Four(s.d, NewA(v, i, Word(block, v.op(i).word), s.a, s.b, s.c, s.d), s.b, s.c)
  }

  function Steps(v: Variant, block: seq<Byte>, s: Four, n: nat): Four
    requires |block| == 64 && v.Valid() && n <= v.steps
  {
    if n == 0 then s else Step(v, block, n - 1, Steps(v, block, s, n - 1))
  }

  function ToRegisters(s: Four, r: Four): Digest.Registers {
    [Plus(s.a, r.a), Plus(s.b, r.b), Plus(s.c, r.c), Plus(s.d, r.d)]
  }

  function FromRegisters(r: Digest.Registers): Four
    requires |r| == 4
  {
    Four(r[0], r[1], r[2], r[3])
  }

  // ----- The code, with registers that change their roles -----

  /** The same steps, perhaps with another way to compute the functions. */
  ghost predicate Refines(code: Variant, v: Variant) {
    && code.steps == v.steps && code.addNext == v.addNext
    && (forall i :: 0 <= i < v.steps ==> code.op(i) == v.op(i))
    && forall i, b, c, d :: code.mix(i, b, c, d) == v.mix(i, b, c, d)
  }

  function AddTo(a: bv32, f: bv32, w: bv32, t: bv32): bv32 { a + (f + w + t) }

  /** a += F (b, c, d) + word + T; CYCLIC (a, s); and in MD5 a += b; */
  function Invoke(v: Variant, i: nat, w: bv32, a: bv32, b: bv32, c: bv32, d: bv32): bv32
    requires v.op(i).Valid()
  {
    var turned := Rol(AddTo(a, v.mix(i, b, c, d), w, v.op(i).constant), v.op(i).shift);
    if v.addNext then Plus(turned, b) else turned
  }

  lemma SumOrder(a: bv32, f: bv32, w: bv32, t: bv32)
    ensures AddTo(a, f, w, t) == Sum(a, f, w, t)
  {
  }

  lemma PlusCommutes(x: bv32, y: bv32)
    ensures Plus(x, y) == Plus(y, x)
  {
  }

  /** The sixteen words of a block, in their order. */
  method Words(block: seq<Byte>) returns (x: array<bv32>)
    requires |block| == 64
    ensures fresh(x) && x.Length == 16 && forall k :: 0 <= k < 16 ==> x[k] == Word(block, k)
  {
    hide FromLE;
    x := new bv32[16](_ => 0);
    for t := 0 to 16
      invariant forall k :: 0 <= k < t ==> x[k] == Word(block, k)
    {
      x[t] := FromLE(block[4 * t..4 * t + 4]);
    }
  }

  /** One invocation gives the register the value that the definition gives it. */
  lemma OpIsNewA(v: Variant, code: Variant, i: nat, w: bv32, a: bv32, b: bv32, c: bv32, d: bv32)
    requires v.Valid() && Refines(code, v) && i < v.steps
    ensures code.op(i) == v.op(i) && v.op(i).Valid()
    ensures Invoke(code, i, w, a, b, c, d) == NewA(v, i, w, a, b, c, d)
  {
    hide Rol, Sum, AddTo, Plus;
    var f := v.mix(i, b, c, d);
    assert code.mix(i, b, c, d) == f;
    SumOrder(a, f, w, v.op(i).constant);
    PlusCommutes(b, Rol(Sum(a, f, w, v.op(i).constant), v.op(i).shift));
  }

  lemma SameSteps(v: Variant, code: Variant)
    requires Refines(code, v)
    ensures code.steps == v.steps
  {
  }

  /** The number of the word of a step. */
  function WordOf(v: Variant, i: nat): nat { v.op(i).word }

  /** OP (A, B, C, D, ...) OP (D, A, B, C, ...) OP (C, D, A, B, ...) OP (B, C, D, A, ...) */
  method FourSteps(ghost v: Variant, code: Variant, x: array<bv32>, i: nat, a0: bv32, b0: bv32, c0: bv32, d0: bv32,
                   ghost block: seq<Byte>, ghost s: Four)
      returns (a: bv32, b: bv32, c: bv32, d: bv32)
    requires v.Valid() && Refines(code, v) && i + 4 <= v.steps
    requires |block| == 64 && x.Length == 16 && forall k :: 0 <= k < 16 ==> x[k] == Word(block, k)
    requires Four(a0, b0, c0, d0) == Steps(v, block, s, i)
    ensures Four(a, b, c, d) == Steps(v, block, s, i + 4)
  {
    hide Word, NewA, Invoke, Refines;
    a, b, c, d := a0, b0, c0, d0;
    OpIsNewA(v, code, i, Word(block, WordOf(v, i)), a, b, c, d);
    a := Invoke(code, i, x[code.op(i).word], a, b, c, d);
    assert Four(d, a, b, c) == Steps(v, block, s, i + 1);
    OpIsNewA(v, code, i + 1, Word(block, WordOf(v, i + 1)), d, a, b, c);
    d := Invoke(code, i + 1, x[code.op(i + 1).word], d, a, b, c);
    assert Four(c, d, a, b) == Steps(v, block, s, i + 2);
    OpIsNewA(v, code, i + 2, Word(block, WordOf(v, i + 2)), c, d, a, b);
    c := Invoke(code, i + 2, x[code.op(i + 2).word], c, d, a, b);
    assert Four(b, c, d, a) == Steps(v, block, s, i + 3);
    OpIsNewA(v, code, i + 3, Word(block, WordOf(v, i + 3)), b, c, d, a);
    b := Invoke(code, i + 3, x[code.op(i + 3).word], b, c, d, a);
  }

  /** One block of md5_process_block or md4_process_block; the unrolled steps are run four at a time. */
  method CompressBlock(ghost v: Variant, code: Variant, regs: Digest.Registers, block: seq<Byte>)
      returns (r: Digest.Registers)
    requires v.Valid() && Refines(code, v) && |regs| == 4 && |block| == 64
    ensures r == ToRegisters(FromRegisters(regs), Steps(v, block, FromRegisters(regs), v.steps))
  {
    hide Word, Step, Refines, Plus;
    ghost var s := FromRegisters(regs);
    assert code.steps == v.steps by { SameSteps(v, code); }
    var x := Words(block);
    var a, b, c, d := regs[0], regs[1], regs[2], regs[3];
    var i := 0;
    while i < code.steps
      invariant 0 <= i <= code.steps && i % 4 == 0 && code.steps == v.steps && v.steps % 4 == 0
      invariant Four(a, b, c, d) == Steps(v, block, s, i)
      invariant forall k :: 0 <= k < 16 ==> x[k] == Word(block, k)
    {
      a, b, c, d := FourSteps(v, code, x, i, a, b, c, d, block, s);
      i := i + 4;
    }
    r := [Plus(regs[0], a), Plus(regs[1], b), Plus(regs[2], c), Plus(regs[3], d)];
  }
}
