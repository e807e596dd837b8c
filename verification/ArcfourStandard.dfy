/** RC4 said once more, by permutations of 0..255 and sums modulo 256, with the index i in closed form. */
module ArcfourStandard {
  import opened MachineInts
  import opened Bytes
  import opened Arcfour

  /** A permutation of 0..255, by its values, and the sum that has become its second index. */
  datatype Scheme = Scheme(p: seq<nat>, sum: nat)

  predicate IsBox(p: seq<nat>) {
    |p| == 256 && forall x :: 0 <= x < 256 ==> p[x] < 256
  }

  /** x, with a and b exchanged. */
  function Transposed(a: nat, b: nat, x: nat): nat {
    if x == a then b else if x == b then a else x
  }

  /** First a and b are exchanged, and then p is applied. */
  function Exchanged(p: seq<nat>, a: nat, b: nat): (r: seq<nat>)
    requires IsBox(p) && a < 256 && b < 256
    ensures IsBox(r) && forall x :: 0 <= x < 256 ==> r[x] == p[Transposed(a, b, x)]
  {
    seq(256, x requires 0 <= x < 256 => p[Transposed(a, b, x)])
  }

  /** After n turns over the key: the sum of all entries met at 0, 1, 2, ... and of the key bytes, repeated. */
  function Scheduled(key: seq<Octet>, n: nat): (s: Scheme)
    requires |key| > 0 && n <= 256
    ensures IsBox(s.p)
  {
    if n == 0 then Scheme(seq(256, x requires 0 <= x < 256 => x), 0)
    else
      var s := Scheduled(key, n - 1);
      var sum := s.sum + s.p[n - 1] + key[(n - 1) % |key|] as nat;
      Scheme(Exchanged(s.p, n - 1, sum % 256), sum)
  }

  /** After n bytes: the sum of the entries met at 1, 2, 3, ... modulo 256. */
  function Generated(key: seq<Octet>, n: nat): (s: Scheme)
    requires |key| > 0
    ensures IsBox(s.p)
  {
    if n == 0 then Scheme(Scheduled(key, 256).p, 0) else Turned(Generated(key, n - 1), n)
  }

  function Turned(s: Scheme, n: nat): (t: Scheme)
    requires IsBox(s.p)
    ensures IsBox(t.p)
  {
    var sum := s.sum + s.p[n % 256];
    Scheme(Exchanged(s.p, n % 256, sum % 256), sum)
  }

  /** Byte number n of the key stream, counted from 1: the entry at the sum of the two entries just exchanged. */
  function StreamByte(key: seq<Octet>, n: nat): (k: nat)
    requires |key| > 0
    ensures k < 256
  {
    var s := Generated(key, n);
    s.p[(s.p[n % 256] + s.p[s.sum % 256]) % 256]
  }

  // ----- The state of the code is that scheme -----

  ghost predicate IsScheme(box: seq<Octet>, p: seq<nat>) {
    |box| == |p| == 256 && forall x :: 0 <= x < 256 ==> box[x] as nat == p[x]
  }

  lemma SwapTransposes(box: seq<Octet>, p: seq<nat>, a: Octet, b: Octet)
    requires IsBox(p) && IsScheme(box, p)
    ensures IsScheme(Swap(box, a, b), Exchanged(p, a as nat, b as nat))
  {
  }

  lemma EntryOf(box: seq<Octet>, p: seq<nat>, i: Octet)
    requires IsScheme(box, p)
    ensures |box| == |p| == 256 && box[i] as nat == p[i as nat]
  {
  }

  lemma SumsModulo(x: nat, y: nat)
    ensures (x % 256 + y) % 256 == (x + y) % 256
  {
    DivUnique(x + y, 256, x / 256 + (x % 256 + y) / 256, (x % 256 + y) % 256);
  }

  lemma AddIsSum(x: nat, y: Octet)
    ensures Add(x % 256, y) == (x + y as nat) % 256
  {
    SumsModulo(x, y as nat);
  }

  lemma {:induction false} MixedIsScheduled(key: seq<Octet>, n: nat)
    requires |key| > 0 && n <= 256
    ensures IsScheme(Mixed(key, n).0, Scheduled(key, n).p) && Mixed(key, n).1 as nat == Scheduled(key, n).sum % 256
    decreases n
  {
    hide Swap, Add, Transposed;
    if n > 0 {
      MixedIsScheduled(key, n - 1);
      var (box, j) := Mixed(key, n - 1);
      var s := Scheduled(key, n - 1);
      var k := key[(n - 1) % |key|];
      AddIsSum(s.sum, box[n - 1]);
      AddIsSum(s.sum + box[n - 1] as nat, k);
      SwapTransposes(box, s.p, n - 1, Add(Add(j, box[n - 1]), k));
    }
  }

  /** After n bytes: the index i is n, j the sum, and the box the permutation. */
  ghost predicate Agree(t: State, s: Scheme, n: nat) {
    t.i as nat == n % 256 && t.j as nat == s.sum % 256 && IsScheme(t.box, s.p)
  }

  lemma NextByte(t: State, s: Scheme, n: nat)
    requires n > 0 && IsBox(s.p) && Agree(t, s, n - 1)
    ensures |t.box| == 256 && Agree(Next(t), Turned(s, n), n)
  {
    hide Swap, Add, Exchanged, IsScheme;
    AddIsSum(n - 1, 1);
    EntryOf(t.box, s.p, Add(t.i, 1));
    AddIsSum(s.sum, t.box[Add(t.i, 1)]);
    SwapTransposes(t.box, s.p, Add(t.i, 1), Add(t.j, t.box[Add(t.i, 1)]));
  }

  lemma {:induction false} RunIsGenerated(key: seq<Octet>, n: nat)
    requires |key| > 0
    ensures Agree(After(Keyed(key), n), Generated(key, n), n)
    decreases n
  {
    hide Next, Turned, After, Mixed, Scheduled, Agree;
    if n == 0 {
      StartsAgreeing(key);
    } else {
      RunIsGenerated(key, n - 1);
      StreamOne(Keyed(key), n - 1);
      NextByte(After(Keyed(key), n - 1), Generated(key, n - 1), n);
    }
  }

  lemma StartsAgreeing(key: seq<Octet>)
    requires |key| > 0
    ensures Agree(After(Keyed(key), 0), Generated(key, 0), 0)
  {
    hide Mixed, Scheduled, After;
    MixedIsScheduled(key, 256);
    AfterNothing(Keyed(key));
  }

  /** So the key stream of the code is that of RC4, for every key and every length. */
  lemma StreamConforms(key: seq<Octet>, length: nat, k: nat)
    requires |key| > 0 && k < length
    ensures KeyStream(Keyed(key), length)[k] == StreamByte(key, k + 1) as Byte
  {
    hide After, Mixed, Scheduled, Generated, KeyByte;
    KeyStreamAt(Keyed(key), length, k);
    RunIsGenerated(key, k + 1);
    ByteOfScheme(key, k + 1);
  }

  lemma ByteOfScheme(key: seq<Octet>, n: nat)
    requires |key| > 0
    ensures KeyByte(After(Keyed(key), n)) == StreamByte(key, n) as Byte
  {
    hide After, Mixed, Scheduled, Generated;
    RunIsGenerated(key, n);
  }

  lemma {:induction false} KeyStreamAt(s: State, length: nat, k: nat)
    requires |s.box| == 256 && k < length
    ensures KeyStream(s, length)[k] == KeyByte(After(s, k + 1))
    decreases length
  {
    hide KeyByte, Next, After;
    StreamOne(s, length - 1);
    if k < length - 1 {
      KeyStreamAt(s, length - 1, k);
    }
  }
}
