/** gl/des.c: contexts for DES and triple DES, and encryption and decryption of blocks with them. */
module DesCipher {
  import opened MachineInts
  import opened Bytes
  import opened Feistel
  import opened Des
  import opened DesSchedule

  // ----- Sixteen rounds -----

  lemma {:induction false} ReversedAt(keys: seq<bv32>, i: nat)
    requires |keys| % 2 == 0 && i % 2 == 0 && i + 1 < |keys|
    ensures Reversed(keys)[i] == keys[|keys| - 2 - i] && Reversed(keys)[i + 1] == keys[|keys| - 1 - i]
  {
    if i + 2 < |keys| {
      ReversedAt(keys[2..], i);
    }
  }

  /** One step of the unrolled loop: two rounds more. */
  lemma RoundsStep(f: RoundFunction, keys: seq<bv32>, n: nat, p: Pair)
    requires n % 4 == 0 && n + 4 <= |keys|
    ensures var q := Rounds(f, keys[..n], p);
            var left := Round(f, q.b, q.a, keys[n], keys[n + 1]);
            Rounds(f, keys[..n + 4], p) == Pair(left, Round(f, left, q.b, keys[n + 2], keys[n + 3]))
  {
    hide Rounds, Round;
    assert keys[..n + 4] == keys[..n] + keys[n..n + 4];
    RoundsAppend(f, keys[..n], keys[n..n + 4], p);
    RoundsFour(f, keys[n..n + 4], Rounds(f, keys[..n], p));
  }

  /** DES_ROUND (from, to, work, subkey) */
  lemma RoundIsXor(x: bv32, y: bv32, k0: bv32, k1: bv32)
    ensures Round(DES_ROUND, x, y, k0, k1) == Xor(y, DesRound(x, k0, k1))
  {
    hide DesRound, Xor;
  }

  /** DES_ROUND (right, left, work, keys) DES_ROUND (left, right, work, keys), eight times over. */
  method SixteenRounds(keys: array<bv32>, at: nat, left0: bv32, right0: bv32) returns (left: bv32, right: bv32)
    requires at + 32 <= keys.Length
    ensures Pair(left, right) == Rounds(DES_ROUND, keys[at..at + 32], Pair(left0, right0))
  {
    hide DesRound, Rounds, Round, Xor;
    ghost var k, p := keys[at..at + 32], Pair(left0, right0);
    left, right := left0, right0;
    NoKeys(DES_ROUND, p);
    assert k[..0] == [];
    for i := 0 to 8
      invariant Pair(left, right) == Rounds(DES_ROUND, k[..4 * i], p)
    {
      var j := at + 4 * i;
      RoundsStep(DES_ROUND, k, 4 * i, p);
      RoundIsXor(right, left, keys[j], keys[j + 1]);
      left := Xor(left, DesRound(right, keys[j], keys[j + 1]));
      RoundIsXor(left, right, keys[j + 2], keys[j + 3]);
      right := Xor(right, DesRound(left, keys[j + 2], keys[j + 3]));
    }
    assert k[..32] == k;
  }

  // ----- DES -----

  /** gl_des_ctx */
  class DesContext {
    const encrypt: array<bv32>
    const decrypt: array<bv32>

    ghost predicate Valid() {
      encrypt.Length == decrypt.Length == 32 && encrypt != decrypt
    }

    /** The subkeys for both directions come from this key. */
    ghost predicate KeyedBy(key: seq<Byte>)
      requires |key| == 8
      reads encrypt, decrypt
    {
      encrypt[..] == Schedule(key) && decrypt[..] == Reversed(Schedule(key))
    }

    constructor ()
      ensures Valid() && fresh(encrypt) && fresh(decrypt)
    {
      encrypt, decrypt := new bv32[32], new bv32[32];
    }

    /** `gl_des_setkey` */
    method SetKey(key: seq<Byte>)
      requires Valid() && |key| == 8
      modifies encrypt, decrypt
      ensures KeyedBy(key)
    {
      hide Schedule;
      KeySchedule(key, encrypt, 0);
      assert encrypt[..] == encrypt[0..0 + 32];
      var i := 0;
      while i < 32
        invariant 0 <= i <= 32 && i % 2 == 0 && encrypt[..] == Schedule(key)
        invariant forall j :: 0 <= j < i ==> decrypt[j] == Reversed(Schedule(key))[j]
      {
        ReversedAt(Schedule(key), i);
        decrypt[i] := encrypt[30 - i];
        decrypt[i + 1] := encrypt[31 - i];
        i := i + 2;
      }
    }

    /** `gl_des_ecb_crypt`; `from` and `into` may be the same buffer. */
    method EcbCrypt(from: array<Byte>, into: array<Byte>, mode: int)
      requires Valid() && from.Length >= 8 && into.Length >= 8
      modifies into
      ensures into[..8] == CryptBytes(if mode != 0 then decrypt[..] else encrypt[..], old(from[..8]))
      ensures into[8..] == old(into[8..])
    {
      hide Rounds, InitialPermutation, FinalPermutation, FromBE, BitsBE;
      var keys := if mode != 0 then decrypt else encrypt;
      var p := ReadBlock(from[..8]);
      var q := InitialPermutation(p);
      var left, right := SixteenRounds(keys, 0, q.a, q.b);
      assert keys[0..0 + 32] == keys[..];
      StoreSeq(into, 0, WriteBlock(FinalPermutation(Pair(right, left))));
    }
  }

  /** Decrypting undoes encrypting, and encrypting undoes decrypting, for every key and every block. */
  lemma DesRoundTrip(key: seq<Byte>, data: seq<Byte>)
    requires |key| == 8 && |data| == 8
    ensures CryptBytes(Reversed(Schedule(key)), CryptBytes(Schedule(key), data)) == data
    ensures CryptBytes(Schedule(key), CryptBytes(Reversed(Schedule(key)), data)) == data
  {
    hide Schedule, CryptBytes, Reversed;
    CryptBytesUndone(Schedule(key), data);
    CryptBytesUndone(Reversed(Schedule(key)), data);
    ReversedTwice(Schedule(key));
  }

  /** In a context that `gl_des_setkey` built, each mode undoes the other. */
  lemma DesContextRoundTrip(ctx: DesContext, key: seq<Byte>, data: seq<Byte>)
    requires ctx.Valid() && |key| == 8 && |data| == 8 && ctx.KeyedBy(key)
    ensures CryptBytes(ctx.decrypt[..], CryptBytes(ctx.encrypt[..], data)) == data
    ensures CryptBytes(ctx.encrypt[..], CryptBytes(ctx.decrypt[..], data)) == data
  {
    hide Schedule, CryptBytes, Reversed;
    DesRoundTrip(key, data);
  }

  // ----- Triple DES -----

  /** The effect on eight bytes of three passes of DES in a row. */
  function TripleBytes(k1: seq<bv32>, k2: seq<bv32>, k3: seq<bv32>, data: seq<Byte>): (r: seq<Byte>)
    requires |data| == 8
    ensures |r| == 8
  {
    CryptBytes(k3, CryptBytes(k2, CryptBytes(k1, data)))
  }

  /** Encryption with k1, decryption with k2, encryption with k3. */
  function EncryptTriple(key1: seq<Byte>, key2: seq<Byte>, key3: seq<Byte>, data: seq<Byte>): (r: seq<Byte>)
    requires |key1| == |key2| == |key3| == 8 && |data| == 8
  {
    TripleBytes(Schedule(key1), Reversed(Schedule(key2)), Schedule(key3), data)
  }

  /** Decryption with k3, encryption with k2, decryption with k1. */
  function DecryptTriple(key1: seq<Byte>, key2: seq<Byte>, key3: seq<Byte>, data: seq<Byte>): (r: seq<Byte>)
    requires |key1| == |key2| == |key3| == 8 && |data| == 8
  {
    TripleBytes(Reversed(Schedule(key3)), Schedule(key2), Reversed(Schedule(key1)), data)
  }

  /** One pass through the rounds per key, and the two words exchanged in between: the inner permutations cancel. */
  lemma TripleRounds(k1: seq<bv32>, k2: seq<bv32>, k3: seq<bv32>, p: Pair)
    ensures var q := Rounds(DES_ROUND, k2, Rounds(DES_ROUND, k1, InitialPermutation(p)).Swap()).Swap();
            FinalPermutation(Rounds(DES_ROUND, k3, q).Swap()) == Crypt(k3, Crypt(k2, Crypt(k1, p)))
  {
    hide InitialPermutation, FinalPermutation, Rounds, DES_ROUND;
    var q1 := Rounds(DES_ROUND, k1, InitialPermutation(p)).Swap();
    InitialOfFinal(q1);
    InitialOfFinal(Rounds(DES_ROUND, k2, q1).Swap());
  }

  lemma TripleBlocks(k1: seq<bv32>, k2: seq<bv32>, k3: seq<bv32>, data: seq<Byte>)
    requires |data| == 8
    ensures TripleBytes(k1, k2, k3, data) == WriteBlock(Crypt(k3, Crypt(k2, Crypt(k1, ReadBlock(data)))))
  {
    hide Crypt, ReadBlock, WriteBlock;
    var p1 := Crypt(k1, ReadBlock(data));
    BlockOfPair(p1);
    BlockOfPair(Crypt(k2, p1));
  }

  /** Triple DES decrypts what it encrypted, and the other way round. */
  lemma TripleRoundTrip(key1: seq<Byte>, key2: seq<Byte>, key3: seq<Byte>, data: seq<Byte>)
    requires |key1| == |key2| == |key3| == 8 && |data| == 8
    ensures DecryptTriple(key1, key2, key3, EncryptTriple(key1, key2, key3, data)) == data
    ensures EncryptTriple(key1, key2, key3, DecryptTriple(key1, key2, key3, data)) == data
  {
    hide Schedule, CryptBytes, Reversed;
    var d1 := CryptBytes(Schedule(key1), data);
    DesRoundTrip(key3, CryptBytes(Reversed(Schedule(key2)), d1));
    DesRoundTrip(key2, d1);
    DesRoundTrip(key1, data);
    var e1 := CryptBytes(Reversed(Schedule(key3)), data);
    DesRoundTrip(key1, CryptBytes(Schedule(key2), e1));
    DesRoundTrip(key2, e1);
    DesRoundTrip(key3, data);
  }

  /** With one key three times, triple DES is DES. */
  lemma TripleOfOneKey(key: seq<Byte>, data: seq<Byte>)
    requires |key| == 8 && |data| == 8
    ensures EncryptTriple(key, key, key, data) == CryptBytes(Schedule(key), data)
    ensures DecryptTriple(key, key, key, data) == CryptBytes(Reversed(Schedule(key)), data)
  {
    hide Schedule, CryptBytes, Reversed;
    DesRoundTrip(key, data);
  }

  /** Triple DES with 96 words of subkeys. */
  function CryptTriple(keys: seq<bv32>, data: seq<Byte>): (r: seq<Byte>)
    requires |keys| == 96 && |data| == 8
    ensures |r| == 8
  {
    TripleBytes(keys[..32], keys[32..64], keys[64..], data)
  }

  /** The subkeys for encryption under three keys with these schedules. */
  function ForwardKeys(s1: seq<bv32>, s2: seq<bv32>, s3: seq<bv32>): (keys: seq<bv32>)
    requires |s1| == |s2| == |s3| == 32
    ensures |keys| == 96
  {
    s1 + Reversed(s2) + s3
  }

  /** The subkeys for decryption. */
  function BackwardKeys(s1: seq<bv32>, s2: seq<bv32>, s3: seq<bv32>): (keys: seq<bv32>)
    requires |s1| == |s2| == |s3| == 32
    ensures |keys| == 96
  {
    Reversed(s3) + s2 + Reversed(s1)
  }

  lemma ThirdsAt(s1: seq<bv32>, s2: seq<bv32>, s3: seq<bv32>)
    requires |s1| == |s2| == |s3| == 32
    ensures ForwardKeys(s1, s2, s3)[0..32] == s1 && ForwardKeys(s1, s2, s3)[64..96] == s3
    ensures BackwardKeys(s1, s2, s3)[32..64] == s2
  {
  }

  /** The two lists mirror each other pair by pair. */
  lemma Mirrored(s1: seq<bv32>, s2: seq<bv32>, s3: seq<bv32>, i: nat)
    requires |s1| == |s2| == |s3| == 32 && i % 2 == 0 && i < 32
    ensures var e, d := ForwardKeys(s1, s2, s3), BackwardKeys(s1, s2, s3);
            && d[i] == s3[30 - i] == e[94 - i] && d[i + 1] == s3[31 - i] == e[95 - i]
            && e[i + 32] == d[62 - i] && e[i + 33] == d[63 - i]
            && d[i + 64] == e[30 - i] == s1[30 - i] && d[i + 65] == e[31 - i] == s1[31 - i]
            && e[i + 64] == s3[i] && e[i + 65] == s3[i + 1] && e[i] == s1[i] && e[i + 1] == s1[i + 1]
  {
    hide Reversed;
    ReversedAt(s1, i);
    ReversedAt(s2, i);
    ReversedAt(s3, i);
  }

  /** From lo up to hi the two sequences are the same. */
  ghost predicate AgreesOn(a: seq<bv32>, e: seq<bv32>, lo: nat, hi: nat) {
    hi <= |a| && hi <= |e| && forall j :: lo <= j < hi ==> a[j] == e[j]
  }

  lemma AgreesAt(a: seq<bv32>, e: seq<bv32>, lo: nat, hi: nat, j: nat)
    requires AgreesOn(a, e, lo, hi) && lo <= j < hi - 1
    ensures a[j] == e[j] && a[j + 1] == e[j + 1]
  {
  }

  lemma AgreesNowhere(a: seq<bv32>, e: seq<bv32>, k: nat)
    requires k <= |a| && k <= |e|
    ensures AgreesOn(a, e, k, k)
  {
  }

  lemma AgreesJoined(a: seq<bv32>, e: seq<bv32>, lo: nat, mid: nat, hi: nat)
    requires AgreesOn(a, e, lo, mid) && AgreesOn(a, e, mid, hi)
    ensures AgreesOn(a, e, lo, hi)
  {
  }

  lemma Placed(a: seq<bv32>, at: nat, s: seq<bv32>, e: seq<bv32>)
    requires at + 32 <= |a| && at + 32 <= |e| && a[at..at + 32] == s == e[at..at + 32]
    ensures AgreesOn(a, e, at, at + 32)
  {
    forall j | at <= j < at + 32
      ensures a[j] == e[j]
    {
      assert a[at..at + 32][j - at] == a[j] && e[at..at + 32][j - at] == e[j];
    }
  }

  lemma Whole(a: seq<bv32>, e: seq<bv32>)
    requires |a| == |e| && AgreesOn(a, e, 0, |a|)
    ensures a == e
  {
  }

  lemma ThirdsOf(s1: seq<bv32>, s2: seq<bv32>, s3: seq<bv32>)
    requires |s1| == |s2| == |s3| == 32
    ensures var e, d := ForwardKeys(s1, s2, s3), BackwardKeys(s1, s2, s3);
            && e[..32] == s1 && e[32..64] == Reversed(s2) && e[64..] == s3
            && d[..32] == Reversed(s3) && d[32..64] == s2 && d[64..] == Reversed(s1)
  {
    hide Reversed;
  }

  /** Two adjacent stores, which extend the part from lo to k on which the array has what it should have, and do not
      disturb another such part. */
  method PutTwo(a: array<bv32>, k: nat, x: bv32, y: bv32, ghost e: seq<bv32>, ghost lo: nat, ghost lo': nat,
                ghost hi': nat)
    requires k + 1 < a.Length && k + 1 < |e| && x == e[k] && y == e[k + 1]
    requires lo <= k && AgreesOn(a[..], e, lo, k) && AgreesOn(a[..], e, lo', hi') && (hi' <= k || k + 2 <= lo')
    modifies a
    ensures AgreesOn(a[..], e, lo, k + 2) && AgreesOn(a[..], e, lo', hi')
  {
    a[k] := x;
    a[k + 1] := y;
  }

  /** Two adjacent words copied from index j to index k, when the part around them is already right. */
  method CopyAcross(source: array<bv32>, j: nat, a: array<bv32>, k: nat, ghost f: seq<bv32>, ghost from: nat,
                    ghost upto: nat, ghost e: seq<bv32>, ghost lo: nat, ghost lo': nat, ghost hi': nat)
    requires source.Length == a.Length == |f| == |e| == 96 && from <= j < upto - 1 && upto <= 96 && lo <= k < 95
    requires AgreesOn(source[..], f, from, upto) && AgreesOn(a[..], e, lo, k) && AgreesOn(a[..], e, lo', hi')
    requires e[k] == f[j] && e[k + 1] == f[j + 1] && (hi' <= k || k + 2 <= lo')
    modifies a
    ensures AgreesOn(a[..], e, lo, k + 2) && AgreesOn(a[..], e, lo', hi')
  {
    hide AgreesOn;
    AgreesAt(source[..], f, from, upto, j);
    PutTwo(a, k, source[j], source[j + 1], e, lo, lo', hi');
  }

  /** gl_3des_ctx */
  class TripleContext {
    const encrypt: array<bv32>
    const decrypt: array<bv32>

    ghost predicate Valid() {
      encrypt.Length == decrypt.Length == 96 && encrypt != decrypt
    }

    /** The subkeys for both directions come from these keys. */
    ghost predicate KeyedBy(key1: seq<Byte>, key2: seq<Byte>, key3: seq<Byte>)
      requires |key1| == |key2| == |key3| == 8
      reads encrypt, decrypt
    {
      && encrypt[..] == ForwardKeys(Schedule(key1), Schedule(key2), Schedule(key3))
      && decrypt[..] == BackwardKeys(Schedule(key1), Schedule(key2), Schedule(key3))
    }

    constructor ()
      ensures Valid() && fresh(encrypt) && fresh(decrypt)
    {
      encrypt, decrypt := new bv32[96], new bv32[96];
    }

    /** `gl_3des_set2keys`: the context that `gl_3des_set3keys` builds from key1, key2, key1. */
    method Set2Keys(key1: seq<Byte>, key2: seq<Byte>)
      requires Valid() && |key1| == |key2| == 8
      modifies encrypt, decrypt
      ensures KeyedBy(key1, key2, key1)
    {
      hide Schedule;
      KeySchedule(key1, encrypt, 0);
      KeySchedule(key2, decrypt, 32);
      Derive2(Schedule(key1), Schedule(key2));
    }

    /** The loop of `gl_3des_set2keys`. */
    method Derive2(ghost s1: seq<bv32>, ghost s2: seq<bv32>)
      requires Valid() && |s1| == |s2| == 32
      requires encrypt[0..32] == s1 && decrypt[32..64] == s2
      modifies encrypt, decrypt
      ensures encrypt[..] == ForwardKeys(s1, s2, s1) && decrypt[..] == BackwardKeys(s1, s2, s1)
    {
      hide Reversed, ForwardKeys, BackwardKeys, AgreesOn;
      ghost var e, d := ForwardKeys(s1, s2, s1), BackwardKeys(s1, s2, s1);
      ThirdsAt(s1, s2, s1);
      Placed(encrypt[..], 0, s1, e);
      Placed(decrypt[..], 32, s2, d);
      AgreesNowhere(decrypt[..], d, 0);
      AgreesNowhere(encrypt[..], e, 64);
      var i := 0;
      while i < 32
        invariant 0 <= i <= 32 && i % 2 == 0
        invariant AgreesOn(encrypt[..], e, 0, 32 + i) && AgreesOn(encrypt[..], e, 64, 64 + i)
        invariant AgreesOn(decrypt[..], d, 0, i) && AgreesOn(decrypt[..], d, 32, 64 + i)
      {
        Mirrored(s1, s2, s1, i);
        CopyAcross(encrypt, 30 - i, decrypt, i, e, 0, 32 + i, d, 0, 32, 64 + i);
        CopyAcross(decrypt, 62 - i, encrypt, i + 32, d, 32, 64 + i, e, 0, 64, 64 + i);
        CopyAcross(encrypt, i, encrypt, i + 64, e, 0, 34 + i, e, 64, 0, 34 + i);
        CopyAcross(decrypt, i, decrypt, i + 64, d, 0, i + 2, d, 32, 0, i + 2);
        i := i + 2;
      }
      AgreesJoined(encrypt[..], e, 0, 64, 96);
      AgreesJoined(decrypt[..], d, 0, 32, 96);
      Whole(encrypt[..], e);
      Whole(decrypt[..], d);
    }

    /** `gl_3des_set3keys` */
    method Set3Keys(key1: seq<Byte>, key2: seq<Byte>, key3: seq<Byte>)
      requires Valid() && |key1| == |key2| == |key3| == 8
      modifies encrypt, decrypt
      ensures KeyedBy(key1, key2, key3)
    {
      hide Schedule;
      KeySchedule(key1, encrypt, 0);
      KeySchedule(key2, decrypt, 32);
      ghost var first := encrypt[..64];
      KeySchedule(key3, encrypt, 64);
      assert encrypt[0..32] == encrypt[..64][..32] == first[..32];
      Derive3(Schedule(key1), Schedule(key2), Schedule(key3));
    }

    /** The loop of `gl_3des_set3keys`. */
    method Derive3(ghost s1: seq<bv32>, ghost s2: seq<bv32>, ghost s3: seq<bv32>)
      requires Valid() && |s1| == |s2| == |s3| == 32
      requires encrypt[0..32] == s1 && encrypt[64..96] == s3 && decrypt[32..64] == s2
      modifies encrypt, decrypt
      ensures encrypt[..] == ForwardKeys(s1, s2, s3) && decrypt[..] == BackwardKeys(s1, s2, s3)
    {
      hide Reversed, ForwardKeys, BackwardKeys, AgreesOn;
      ghost var e, d := ForwardKeys(s1, s2, s3), BackwardKeys(s1, s2, s3);
      ThirdsAt(s1, s2, s3);
      Placed(encrypt[..], 0, s1, e);
      Placed(encrypt[..], 64, s3, e);
      Placed(decrypt[..], 32, s2, d);
      AgreesNowhere(decrypt[..], d, 0);
      var i := 0;
      while i < 32
        invariant 0 <= i <= 32 && i % 2 == 0
        invariant AgreesOn(encrypt[..], e, 0, 32 + i) && AgreesOn(encrypt[..], e, 64, 96)
        invariant AgreesOn(decrypt[..], d, 0, i) && AgreesOn(decrypt[..], d, 32, 64 + i)
      {
        Mirrored(s1, s2, s3, i);
        CopyAcross(encrypt, 94 - i, decrypt, i, e, 64, 96, d, 0, 32, 64 + i);
        CopyAcross(decrypt, 62 - i, encrypt, i + 32, d, 32, 64 + i, e, 0, 64, 96);
        CopyAcross(encrypt, 30 - i, decrypt, i + 64, e, 0, 34 + i, d, 32, 0, i + 2);
        i := i + 2;
      }
      AgreesJoined(encrypt[..], e, 0, 64, 96);
      AgreesJoined(decrypt[..], d, 0, 32, 96);
      Whole(encrypt[..], e);
      Whole(decrypt[..], d);
    }

    /** `gl_3des_ecb_crypt`: forty-eight rounds between one initial and one final permutation. */
    method EcbCrypt(from: array<Byte>, into: array<Byte>, mode: int)
      requires Valid() && from.Length >= 8 && into.Length >= 8
      modifies into
      ensures into[..8] == CryptTriple(if mode != 0 then decrypt[..] else encrypt[..], old(from[..8]))
      ensures into[8..] == old(into[8..])
    {
      hide Rounds, InitialPermutation, FinalPermutation, FromBE, BitsBE, TripleBytes, Crypt;
      var keys := if mode != 0 then decrypt else encrypt;
      ghost var k1, k2, k3 := keys[..32], keys[32..64], keys[64..];
      var p := ReadBlock(from[..8]);
      var q := InitialPermutation(p);
      var left, right := SixteenRounds(keys, 0, q.a, q.b);
      right, left := SixteenRounds(keys, 32, right, left);
      left, right := SixteenRounds(keys, 64, left, right);
      assert keys[0..0 + 32] == k1 && keys[32..32 + 32] == k2 && keys[64..64 + 32] == k3;
      assert keys[..][..32] == k1 && keys[..][32..64] == k2 && keys[..][64..] == k3;
      TripleRounds(k1, k2, k3, p);
      TripleBlocks(k1, k2, k3, from[..8]);
      StoreSeq(into, 0, WriteBlock(FinalPermutation(Pair(right, left))));
    }
  }

  /** In a context that `gl_3des_set2keys` or `gl_3des_set3keys` built, each mode undoes the other. */
  lemma TripleContextRoundTrip(ctx: TripleContext, key1: seq<Byte>, key2: seq<Byte>, key3: seq<Byte>, data: seq<Byte>)
    requires |key1| == |key2| == |key3| == 8 && |data| == 8
    requires ctx.Valid() && ctx.KeyedBy(key1, key2, key3)
    ensures CryptTriple(ctx.encrypt[..], data) == EncryptTriple(key1, key2, key3, data)
    ensures CryptTriple(ctx.decrypt[..], data) == DecryptTriple(key1, key2, key3, data)
    ensures CryptTriple(ctx.decrypt[..], CryptTriple(ctx.encrypt[..], data)) == data
    ensures CryptTriple(ctx.encrypt[..], CryptTriple(ctx.decrypt[..], data)) == data
  {
    hide Schedule, Reversed, CryptBytes, TripleBytes, ForwardKeys, BackwardKeys;
    ThirdsOf(Schedule(key1), Schedule(key2), Schedule(key3));
    TripleRoundTrip(key1, key2, key3, data);
  }
}
