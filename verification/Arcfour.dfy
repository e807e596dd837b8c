/** gl/arcfour.c: the RC4 stream cipher. */
module Arcfour {
  import opened MachineInts
  import opened Bytes

  function Add(x: Octet, y: Octet): Octet { (x as int + y as int) % 256 }
  function Sub(x: Octet, y: Octet): Octet { (x as int - y as int) % 256 }

  lemma SubAdd(x: Octet, y: Octet)
    ensures Sub(Add(x, y), y) == x && Add(Sub(x, y), y) == x
  {
    hide Add, Sub;
    AddSubCases(x, y);
    AddSubCases(Add(x, y), y);
    AddSubCases(Sub(x, y), y);
  }

  lemma AddSubCases(x: Octet, y: Octet)
    ensures Add(x, y) == if x as int + y as int < 256 then x as int + y as int else x as int + y as int - 256
    ensures Sub(x, y) == if x < y then x as int - y as int + 256 else x as int - y as int
  {
    var sum, difference := x as int + y as int, x as int - y as int;
    if sum < 256 {
      DivUnique(sum, 256, 0, sum);
    } else {
      DivUnique(sum, 256, 1, sum - 256);
    }
    if x < y {
      DivUnique(difference, 256, -1, difference + 256);
    } else {
      DivUnique(difference, 256, 0, difference);
    }
  }

  /** arcfour_context */
  datatype State = State(box: seq<Octet>, i: Octet, j: Octet) {
    predicate Valid() { IsPermutation(box) }
  }

  /** Every octet occurs exactly once. */
  predicate IsPermutation(box: seq<Octet>) {
    && |box| == 256
    && (forall a, b :: 0 <= a < b < 256 ==> box[a] != box[b])
    && forall v: Octet :: v in box
  }

  function Swap(box: seq<Octet>, a: Octet, b: Octet): (r: seq<Octet>)
    requires |box| == 256
    ensures |r| == 256
  {
    box[a := box[b]][b := box[a]]
  }

  lemma SwapPermutes(box: seq<Octet>, a: Octet, b: Octet)
    requires IsPermutation(box)
    ensures IsPermutation(Swap(box, a, b))
  {
    var r := Swap(box, a, b);
    forall v: Octet
      ensures v in r
    {
      assert v in box;
      var k :| 0 <= k < |box| && box[k] == v;
      assert r[if k == a then b else if k == b then a else k] == v;
    }
  }

  lemma SwapTwice(box: seq<Octet>, a: Octet, b: Octet)
    requires |box| == 256
    ensures Swap(Swap(box, a, b), a, b) == box
  {
  }

  // ----- One step, and the step back -----

  /** One turn of the loop of arcfour_stream. */
  function Next(s: State): (t: State)
    requires |s.box| == 256
    ensures |t.box| == 256
  {
    var i := Add(s.i, 1);
    var j := Add(s.j, s.box[i]);
    State(Swap(s.box, i, j), i, j)
  }

  function Previous(s: State): (t: State)
    requires |s.box| == 256
    ensures |t.box| == 256
  {
    var box := Swap(s.box, s.i, s.j);
    State(box, Sub(s.i, 1), Sub(s.j, box[s.i]))
  }

  /** The byte that a step yields, read from the state after it. */
  function KeyByte(s: State): Byte
    requires |s.box| == 256
  {
    s.box[Add(s.box[s.i], s.box[s.j])] as Byte
  }

  /** Each step can be undone, and each state is reached by a step. */
  lemma StepInvertible(s: State)
    requires |s.box| == 256
    ensures Previous(Next(s)) == s && Next(Previous(s)) == s
  {
    hide Swap, Add, Sub;
    var i := Add(s.i, 1);
    SubAdd(s.i, 1);
    SwapTwice(s.box, i, Add(s.j, s.box[i]));
    SubAdd(s.j, s.box[i]);
    var box := Swap(s.box, s.i, s.j);
    SwapTwice(s.box, s.i, s.j);
    SubAdd(s.j, box[s.i]);
  }

  lemma NextValid(s: State)
    requires s.Valid()
    ensures Next(s).Valid()
  {
    hide IsPermutation, Swap;
    PermutationLength(s.box);
    var i := Add(s.i, 1);
    SwapPermutes(s.box, i, Add(s.j, s.box[i]));
  }

  lemma PermutationLength(box: seq<Octet>)
    requires IsPermutation(box)
    ensures |box| == 256
  {
  }

  // ----- Runs -----

  /** The state after n steps. */
  function After(s: State, n: nat): (t: State)
    requires |s.box| == 256
    ensures |t.box| == 256
    decreases n
  {
    if n == 0 then s else After(Next(s), n - 1)
  }

  /** The bytes that n steps yield. */
  function KeyStream(s: State, n: nat): (k: seq<Byte>)
    requires |s.box| == 256
    ensures |k| == n
    decreases n
  {
    if n == 0 then [] else [KeyByte(Next(s))] + KeyStream(Next(s), n - 1)
  }

  lemma {:induction false} AfterSplit(s: State, m: nat, n: nat)
    requires |s.box| == 256
    ensures After(s, m + n) == After(After(s, m), n)
    ensures KeyStream(s, m + n) == KeyStream(s, m) + KeyStream(After(s, m), n)
    decreases m
  {
    hide Next, KeyByte;
    if m > 0 {
      AfterSplit(Next(s), m - 1, n);
    }
  }

  lemma {:induction false} AfterValid(s: State, n: nat)
    requires s.Valid()
    ensures After(s, n).Valid()
    decreases n
  {
    hide Next, IsPermutation;
    PermutationLength(s.box);
    if n > 0 {
      NextValid(s);
      AfterValid(Next(s), n - 1);
    }
  }

  /** Different states stay different. */
  lemma {:induction false} AfterInjective(s: State, t: State, n: nat)
    requires |s.box| == |t.box| == 256 && After(s, n) == After(t, n)
    ensures s == t
    decreases n
  {
    hide Next, Previous;
    if n > 0 {
      AfterInjective(Next(s), Next(t), n - 1);
      StepInvertible(s);
      StepInvertible(t);
    }
  }

  // ----- The short cycles -----

  /** The states on the short cycles. */
  predicate OnShortCycle(s: State)
    requires |s.box| == 256
  {
    s.j == Add(s.i, 1) && s.box[Add(s.i, 1)] == 1
  }

  lemma ShortCycleKept(s: State)
    requires |s.box| == 256
    ensures OnShortCycle(Next(s)) <==> OnShortCycle(s)
  {
    hide Add, Sub;
    var i := Add(s.i, 1);
    var j := Add(s.j, s.box[i]);
    AddOne(i);
    assert OnShortCycle(Next(s)) <==> j == Add(i, 1) && s.box[i] == 1;
    SubAdd(s.j, 1);
    SubAdd(i, 1);
  }

  lemma AddOne(x: Octet)
    ensures Add(x, 1) != x
  {
  }

  /** A run enters or leaves the short cycles at no step; one that starts with i == j == 0 never meets them. */
  lemma {:induction false} ShortCycleNeverEntered(s: State, n: nat)
    requires |s.box| == 256
    ensures OnShortCycle(After(s, n)) <==> OnShortCycle(s)
    ensures s.i == 0 && s.j == 0 ==> !OnShortCycle(After(s, n))
    decreases n
  {
    hide Next;
    if n > 0 {
      ShortCycleKept(s);
      ShortCycleNeverEntered(Next(s), n - 1);
    }
  }

  // ----- Key setup -----

  /** The box and the index j after the first n turns of the loop over the key. */
  function Mixed(key: seq<Octet>, n: nat): (t: (seq<Octet>, Octet))
    requires |key| > 0 && n <= 256
    ensures |t.0| == 256
  {
    if n == 0 then (seq(256, k requires 0 <= k < 256 => k), 0)
    else
      var (box, j) := Mixed(key, n - 1);
      var j' := Add(Add(j, box[n - 1]), key[(n - 1) % |key|]);
      (Swap(box, n - 1, j'), j')
  }

  /** The state that arcfour_setkey leaves. */
  function Keyed(key: seq<Octet>): (s: State)
    requires |key| > 0
    ensures |s.box| == 256
  {
    State(Mixed(key, 256).0, 0, 0)
  }

  lemma {:induction false} MixedPermutes(key: seq<Octet>, n: nat)
    requires |key| > 0 && n <= 256
    ensures IsPermutation(Mixed(key, n).0)
    decreases n
  {
    hide Swap;
    if n == 0 {
      var box := Mixed(key, 0).0;
      forall v: Octet
        ensures v in box
      {
        assert box[v] == v;
      }
    } else {
      MixedPermutes(key, n - 1);
      SwapPermutes(Mixed(key, n - 1).0, n - 1, Mixed(key, n).1);
    }
  }

  /** Under every key and at every step of the run the box is a permutation and the state is off the short cycles. */
  lemma EveryRun(key: seq<Octet>, n: nat)
    requires |key| > 0
    ensures After(Keyed(key), n).Valid() && !OnShortCycle(After(Keyed(key), n))
  {
    hide IsPermutation, After, Mixed;
    MixedPermutes(key, 256);
    AfterValid(Keyed(key), n);
    ShortCycleNeverEntered(Keyed(key), n);
  }

  // ----- Encryption and decryption -----

  function XorWith(data: seq<Byte>, key: seq<Byte>): (r: seq<Byte>)
    requires |key| == |data|
    ensures |r| == |data|
  {
    seq(|data|, k requires 0 <= k < |data| => XorByte(data[k], key[k]))
  }

  function Crypt(s: State, data: seq<Byte>): (r: seq<Byte>)
    requires |s.box| == 256
    ensures |r| == |data|
  {
    XorWith(data, KeyStream(s, |data|))
  }

  /** The outputs for successive inputs. */
  function CryptPieces(s: State, pieces: seq<seq<Byte>>): (r: seq<seq<Byte>>)
    requires |s.box| == 256
    ensures |r| == |pieces|
    decreases |pieces|
  {
    if pieces == [] then [] else [Crypt(s, pieces[0])] + CryptPieces(After(s, |pieces[0]|), pieces[1..])
  }

  lemma {:induction false} CryptTwice(s: State, data: seq<Byte>)
    requires |s.box| == 256
    ensures Crypt(s, Crypt(s, data)) == data
  {
    hide KeyStream, XorByte;
    var k := KeyStream(s, |data|);
    forall n | 0 <= n < |data|
      ensures Crypt(s, Crypt(s, data))[n] == data[n]
    {
      XorByteLaws(data[n], k[n]);
    }
  }

  lemma {:induction false} CryptAppend(s: State, a: seq<Byte>, b: seq<Byte>)
    requires |s.box| == 256
    ensures Crypt(s, a + b) == Crypt(s, a) + Crypt(After(s, |a|), b)
  {
    hide KeyStream, After, XorWith;
    var k, l := KeyStream(s, |a|), KeyStream(After(s, |a|), |b|);
    var key := KeyStream(s, |a + b|);
    assert key == k + l by {
      AfterSplit(s, |a|, |b|);
    }
    calc {
      Crypt(s, a + b);
      XorWith(a + b, key);
      { XorWithAppend(a, b, k, l); }
      XorWith(a, k) + XorWith(b, l);
      Crypt(s, a) + Crypt(After(s, |a|), b);
    }
  }

  lemma {:induction false} XorWithAppend(a: seq<Byte>, b: seq<Byte>, k: seq<Byte>, l: seq<Byte>)
    requires |k| == |a| && |l| == |b|
    ensures XorWith(a + b, k + l) == XorWith(a, k) + XorWith(b, l)
  {
    hide XorByte;
  }

  lemma {:induction false} CryptInPieces(s: State, pieces: seq<seq<Byte>>)
    requires |s.box| == 256
    ensures Flatten(CryptPieces(s, pieces)) == Crypt(s, Flatten(pieces))
    decreases |pieces|
  {
    hide Crypt, After;
    if pieces == [] {
      assert Crypt(s, []) == [];
    } else {
      CryptInPieces(After(s, |pieces[0]|), pieces[1..]);
      CryptAppend(s, pieces[0], Flatten(pieces[1..]));
    }
  }

  /** Streaming the output through an equal context gives the input back, however each of them is cut. */
  lemma StreamedTwice(s: State, pieces: seq<seq<Byte>>, again: seq<seq<Byte>>)
    requires |s.box| == 256 && Flatten(again) == Flatten(CryptPieces(s, pieces))
    ensures Flatten(CryptPieces(s, again)) == Flatten(pieces)
  {
    hide Crypt, Flatten, CryptPieces;
    CryptInPieces(s, pieces);
    CryptInPieces(s, again);
    CryptTwice(s, Flatten(pieces));
  }

  // ----- The code -----

  /** arcfour_context; characters, signed or not, count modulo 256 throughout. */
  class Context {
    const sbox: array<Octet>
    var idxI: Octet
    var idxJ: Octet

    ghost predicate Valid()
      reads this, sbox
    {
      sbox.Length == 256
    }

    ghost function Value(): (s: State)
      requires Valid()
      reads this, sbox
      ensures |s.box| == 256
    {
      State(sbox[..], idxI, idxJ)
    }

    constructor ()
      ensures Valid() && fresh(sbox)
    {
      sbox := new Octet[256];
    }

    method SwapAt(a: Octet, b: Octet)
      requires Valid()
      modifies sbox
      ensures sbox[..] == Swap(old(sbox[..]), a, b)
    {
      var t := sbox[a];
      sbox[a] := sbox[b];
      sbox[b] := t;
    }

    /** `arcfour_setkey` */
    method SetKey(key: seq<Octet>)
      requires Valid() && |key| > 0
      modifies this, sbox
      ensures Valid() && Value() == Keyed(key)
    {
      hide Swap;
      idxI, idxJ := 0, 0;
      for i := 0 to 256
        invariant idxI == 0 && idxJ == 0
        invariant forall k :: 0 <= k < i ==> sbox[k] == k
      {
        sbox[i] := i;
      }
      assert sbox[..] == Mixed(key, 0).0;
      var j: Octet, k := 0, 0;
      for i := 0 to 256
        invariant idxI == 0 && idxJ == 0
        invariant k == i % |key| && (sbox[..], j) == Mixed(key, i)
      {
        NextRemainder(i, |key|);
        j := Add(Add(j, sbox[i]), key[k]);
        SwapAt(i, j);
        k := k + 1;
        if k == |key| {
          k := 0;
        }
      }
    }

    /** `arcfour_stream`; the two buffers may be the same. */
    method Stream(inbuf: array<Byte>, outbuf: array<Byte>, length: nat)
      requires Valid() && length <= inbuf.Length && length <= outbuf.Length
      requires (inbuf as object) != sbox && (outbuf as object) != sbox
      modifies this`idxI, this`idxJ, sbox, outbuf
      ensures Valid() && Value() == After(old(Value()), length)
      ensures outbuf[..length] == Crypt(old(Value()), old(inbuf[..length]))
      ensures outbuf[length..] == old(outbuf[length..])
    {
      hide Next, KeyByte, Swap, XorByte, KeyStream, After;
      ghost var s, data := Value(), inbuf[..length];
      AfterNothing(s);
      for n := 0 to length
        invariant Valid() && Value() == After(s, n)
        invariant forall k :: n <= k < length ==> inbuf[k] == data[k]
        invariant forall k :: 0 <= k < n ==> outbuf[k] == XorByte(data[k], KeyStream(s, n)[k])
        invariant outbuf[length..] == old(outbuf[length..])
      {
        StreamOne(s, n);
        var b := Step();
        ghost var t := Value();
        outbuf[n] := XorByte(inbuf[n], b);
        assert sbox[..] == t.box;
      }
    }

    /** One turn of the loop: the state moves on and yields a byte. */
    method Step() returns (b: Byte)
      requires Valid()
      modifies this`idxI, this`idxJ, sbox
      ensures Valid() && Value() == Next(old(Value())) && b == KeyByte(Value())
    {
      hide Swap;
      idxI := Add(idxI, 1);
      idxJ := Add(idxJ, sbox[idxI]);
      SwapAt(idxI, idxJ);
      b := sbox[Add(sbox[idxI], sbox[idxJ])] as Byte;
    }
  }

  lemma AfterNothing(s: State)
    requires |s.box| == 256
    ensures After(s, 0) == s && KeyStream(s, 0) == []
  {
  }

  /** One byte more. */
  lemma StreamOne(s: State, n: nat)
    requires |s.box| == 256
    ensures After(s, n + 1) == Next(After(s, n))
    ensures KeyStream(s, n + 1) == KeyStream(s, n) + [KeyByte(After(s, n + 1))]
  {
    hide Next, KeyByte;
    var t := After(s, n);
    AfterSplit(s, n, 1);
    AfterNothing(Next(t));
    assert After(t, 1) == Next(t) && KeyStream(t, 1) == [KeyByte(Next(t))];
  }

  lemma NextRemainder(i: nat, n: nat)
    requires n > 0
    ensures (i + 1) % n == if i % n + 1 == n then 0 else i % n + 1
  {
    var r := if i % n + 1 == n then 0 else i % n + 1;
    DivUnique(i + 1, n, if i % n + 1 == n then i / n + 1 else i / n, r);
  }
}
