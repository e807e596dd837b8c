/** The Feistel scheme of gl/des.c, for any round function: two words, and two words of subkey for each round. */
module Feistel {
  import opened Bytes

  function Not(x: bv32): bv32 { !x }

  lemma NotXor(x: bv32, y: bv32)
    ensures Xor(Not(x), y) == Not(Xor(x, y))
  {
  }

  /** Two words; in the source two variables that the macros update in turn. */
  datatype Pair = Pair(a: bv32, b: bv32) {
    function Swap(): Pair { Pair(b, a) }
    function Complement(): Pair { Pair(Not(a), Not(b)) }
  }

  /** The value that a round mixes into one word, from the other word and two words of subkey. */
  type RoundFunction = (bv32, bv32, bv32) -> bv32

  /** DES_ROUND (from, to, work, subkey): the new value of `to`. */
  function Round(f: RoundFunction, from: bv32, into: bv32, k0: bv32, k1: bv32): bv32 {
    Xor(into, f(from, k0, k1))
  }

  /** Two rounds, the words trading roles: DES_ROUND (right, left), DES_ROUND (left, right) on p == (left, right). */
  function TwoRounds(f: RoundFunction, keys: seq<bv32>, p: Pair): Pair
    requires |keys| == 4
  {
    var left := Round(f, p.b, p.a, keys[0], keys[1]);
    var right := Round(f, left, p.b, keys[2], keys[3]);
    Pair(left, right)
  }

  /** All rounds, two at a time. */
  function Rounds(f: RoundFunction, keys: seq<bv32>, p: Pair): Pair
    decreases |keys|
  {
    if |keys| < 4 then p else Rounds(f, keys[4..], TwoRounds(f, keys[..4], p))
  }

  /** The subkeys in the order for decryption: pairs of words, last pair first. */
  function Reversed(keys: seq<bv32>): (r: seq<bv32>)
    ensures |r| == |keys|
  {
    if |keys| < 2 then keys else Reversed(keys[2..]) + keys[..2]
  }

  // ----- Inversion -----

  lemma {:induction false} RoundsAppend(f: RoundFunction, k: seq<bv32>, l: seq<bv32>, p: Pair)
    requires |k| % 4 == 0
    ensures Rounds(f, k + l, p) == Rounds(f, l, Rounds(f, k, p))
    decreases |k|
  {
    hide TwoRounds;
    if k == [] {
      assert k + l == l;
    } else {
      assert (k + l)[..4] == k[..4] && (k + l)[4..] == k[4..] + l;
      RoundsAppend(f, k[4..], l, TwoRounds(f, k[..4], p));
    }
  }

  lemma TwoRoundsUndone(f: RoundFunction, keys: seq<bv32>, p: Pair)
    requires |keys| == 4
    ensures TwoRounds(f, keys[2..] + keys[..2], TwoRounds(f, keys, p).Swap()) == p.Swap()
  {
    hide Xor;
    var left := Round(f, p.b, p.a, keys[0], keys[1]);
    XorTwice(p.b, f(left, keys[2], keys[3]));
    XorTwice(p.a, f(p.b, keys[0], keys[1]));
  }

  /** Running the rounds with the subkeys reversed, on the words exchanged, undoes them. */
  lemma {:induction false} RoundsUndone(f: RoundFunction, keys: seq<bv32>, p: Pair)
    requires |keys| % 4 == 0
    ensures Rounds(f, Reversed(keys), Rounds(f, keys, p).Swap()) == p.Swap()
    decreases |keys|
  {
    hide TwoRounds, Reversed;
    if keys == [] {
      NoKeys(f, p.Swap());
    } else {
      var k, rest := keys[..4], keys[4..];
      ReversedFour(keys);
      RoundsUndone(f, rest, TwoRounds(f, k, p));
      RoundsAppend(f, Reversed(rest), k[2..] + k[..2], Rounds(f, keys, p).Swap());
      TwoRoundsUndone(f, k, p);
      RoundsFour(f, k[2..] + k[..2], TwoRounds(f, k, p).Swap());
    }
  }

  lemma NoKeys(f: RoundFunction, p: Pair)
    ensures Reversed([]) == [] && Rounds(f, [], p) == p
  {
  }

  lemma ReversedFour(keys: seq<bv32>)
    requires |keys| >= 4
    ensures Reversed(keys) == Reversed(keys[4..]) + (keys[..4][2..] + keys[..4][..2])
  {
    hide Reversed;
    Slices(keys);
    ReversedTwo(keys);
    ReversedTwo(keys[2..]);
    Associative(Reversed(keys[4..]), keys[2..][..2], keys[..2]);
  }

  lemma Slices<T>(s: seq<T>)
    requires |s| >= 4
    ensures s[2..][2..] == s[4..] && s[2..][..2] == s[..4][2..] && s[..4][..2] == s[..2]
  {
  }

  lemma Associative<T>(a: seq<T>, b: seq<T>, c: seq<T>)
    ensures a + b + c == a + (b + c)
  {
  }

  lemma ReversedTwo(keys: seq<bv32>)
    requires |keys| >= 2
    ensures Reversed(keys) == Reversed(keys[2..]) + keys[..2]
  {
  }

  lemma RoundsFour(f: RoundFunction, k: seq<bv32>, p: Pair)
    requires |k| == 4
    ensures Rounds(f, k, p) == TwoRounds(f, k, p)
  {
    hide TwoRounds;
    assert k[..4] == k && k[4..] == [];
    NoKeys(f, TwoRounds(f, k, p));
  }

  lemma {:induction false} ReversedAppend(k: seq<bv32>, l: seq<bv32>)
    requires |k| % 2 == 0
    ensures Reversed(k + l) == Reversed(l) + Reversed(k)
  {
    if k == [] {
      assert k + l == l;
    } else {
      assert (k + l)[..2] == k[..2] && (k + l)[2..] == k[2..] + l;
      ReversedAppend(k[2..], l);
      assert Reversed(l) + Reversed(k[2..]) + k[..2] == Reversed(l) + (Reversed(k[2..]) + k[..2]);
    }
  }

  lemma {:induction false} ReversedTwice(keys: seq<bv32>)
    requires |keys| % 2 == 0
    ensures Reversed(Reversed(keys)) == keys
  {
    if keys != [] {
      var k := keys[..2];
      ReversedTwice(keys[2..]);
      ReversedAppend(Reversed(keys[2..]), k);
      assert Reversed([]) == [] && k[2..] == [] && k[..2] == k;
      assert Reversed(k) == [] + k == k;
      assert keys == k + keys[2..];
    }
  }

  // ----- Complementation -----

  const SUBKEY_BITS: bv32 := 0x3f3f3f3f

  function FlipKeys(keys: seq<bv32>): (r: seq<bv32>)
    ensures |r| == |keys| && forall i :: 0 <= i < |keys| ==> r[i] == Xor(keys[i], SUBKEY_BITS)
  {
    seq(|keys|, i requires 0 <= i < |keys| => Xor(keys[i], SUBKEY_BITS))
  }

  /** Complementing the word and flipping the used bits of the subkey cancel out. */
  ghost predicate Cancels(f: RoundFunction) {
    forall x, k0, k1 :: f(Not(x), Xor(k0, SUBKEY_BITS), Xor(k1, SUBKEY_BITS)) == f(x, k0, k1)
  }

  lemma TwoRoundsComplement(f: RoundFunction, keys: seq<bv32>, p: Pair)
    requires Cancels(f) && |keys| == 4
    ensures TwoRounds(f, FlipKeys(keys), p.Complement()) == TwoRounds(f, keys, p).Complement()
  {
    hide Xor, Not;
    var left := Round(f, p.b, p.a, keys[0], keys[1]);
    NotXor(p.a, f(p.b, keys[0], keys[1]));
    NotXor(p.b, f(left, keys[2], keys[3]));
  }

  lemma {:induction false} RoundsComplement(f: RoundFunction, keys: seq<bv32>, p: Pair)
    requires Cancels(f)
    ensures Rounds(f, FlipKeys(keys), p.Complement()) == Rounds(f, keys, p).Complement()
    decreases |keys|
  {
    hide TwoRounds, Cancels, Xor;
    if |keys| >= 4 {
      assert FlipKeys(keys)[..4] == FlipKeys(keys[..4]) && FlipKeys(keys)[4..] == FlipKeys(keys[4..]);
      TwoRoundsComplement(f, keys[..4], p);
      RoundsComplement(f, keys[4..], TwoRounds(f, keys[..4], p));
    }
  }
}
