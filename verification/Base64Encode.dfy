/** The encoders of gl/base64.c: the fast loop for exact sizes, the general loop, and the allocating wrapper. */
module Base64Encode {
  import opened MachineInts
  import opened Base64

  /** What an output buffer of size outlen receives: the text and a terminator, or a prefix if they do not fit. */
  function Received(text: string, outlen: nat): string {
    if |text| < outlen then text + "\0" else text[..outlen]
  }

  // ----- Groups -----

  lemma EncodeStep(data: seq<Octet>)
    requires |data| >= 1
    ensures Encode(data) == EncodeGroup(data) + Encode(if |data| <= 3 then [] else data[3..])
  {
    assert EncodeGroup(data) + "" == EncodeGroup(data);
  }

  // The values that the code computes from bytes a, b, c with shifts, sums and the mask 0x3f.

  function Bits0(a: Octet): Sextet { a / 4 }
  function Bits1(a: Octet, b: Octet): Sextet { (a as int * 16 + b / 16) % 64 }
  function Bits2(b: Octet, c: Octet): Sextet { (b as int * 4 + c / 64) % 64 }
  function Bits3(c: Octet): Sextet { c % 64 }

  lemma BitsAreFields(a: Octet, b: Octet, c: Octet)
    ensures Bits1(a, b) == a % 4 * 16 + b / 16 && Bits2(b, c) == b % 16 * 4 + c / 64
    ensures Bits1(a, 0) == a % 4 * 16 && Bits2(b, 0) == b % 16 * 4
  {
    DivUnique(a as int * 16 + b / 16, 64, a / 4, a % 4 * 16 + b / 16);
    DivUnique(b as int * 4 + c / 64, 64, b / 16, b % 16 * 4 + c / 64);
  }

  lemma GroupFromBits(d: seq<Octet>)
    requires |d| >= 1
    ensures EncodeGroup(d)[0] == Letter(Bits0(d[0]))
    ensures EncodeGroup(d)[1] == Letter(Bits1(d[0], if |d| >= 2 then d[1] else 0))
    ensures EncodeGroup(d)[2] == if |d| >= 2 then Letter(Bits2(d[1], if |d| >= 3 then d[2] else 0)) else '='
    ensures EncodeGroup(d)[3] == if |d| >= 3 then Letter(Bits3(d[2])) else '='
  {
    hide Letter, Bits1, Bits2;
    BitsAreFields(d[0], if |d| >= 2 then d[1] else 0, if |d| >= 3 then d[2] else 0);
    if |d| >= 2 {
      BitsAreFields(d[0], d[1], 0);
    }
  }

  // ----- base64_encode_fast -----

  /** The four stores of the fast loop. */
  method PutGroup(d: seq<Octet>, out: array<char>, o: nat)
    requires |d| >= 3 && o + 4 <= out.Length
    modifies out
    ensures out[..] == old(out[..o]) + EncodeGroup(d) + old(out[o + 4..])
  {
    hide Letter, EncodeGroup, Bits0, Bits1, Bits2, Bits3;
    GroupFromBits(d);
    out[o] := Letter(Bits0(d[0]));
    out[o + 1] := Letter(Bits1(d[0], d[1]));
    out[o + 2] := Letter(Bits2(d[1], d[2]));
    out[o + 3] := Letter(Bits3(d[2]));
  }

  method EncodeFast(data: seq<Octet>, out: array<char>)
    requires |data| % 3 == 0 && EncodedLength(|data|) <= out.Length
    modifies out
    ensures out[..] == Encode(data) + old(out[EncodedLength(|data|)..])
  {
    hide Encode, EncodeGroup;
    ghost var text := Encode(data);
    EncodeLength(data);
    var rem, o: nat := data, 0;
    while rem != []
      invariant |rem| % 3 == 0 && o <= |text| && text == text[..o] + Encode(rem)
      invariant out[..] == text[..o] + old(out[o..])
      decreases |rem|
    {
      ghost var before := out[..];
      RoundText(text, o, rem, o + 4);
      PutGroup(rem, out, o);
      AfterGroup(rem);
      GroupStored(before, out[..], text, o, EncodeGroup(rem), old(out[..]));
      rem := rem[3..];
      o := o + 4;
    }
    EncodeNone([]);
  }

  lemma GroupStored(before: string, after: string, text: string, o: nat, group: string, first: string)
    requires |group| == 4 && o + 4 <= |text| <= |first| && text[..o + 4] == text[..o] + group
    requires before == text[..o] + first[o..] && after == before[..o] + group + before[o + 4..]
    ensures after == text[..o + 4] + first[o + 4..]
  {
    assert before[o + 4..] == first[o + 4..];
  }

  lemma AfterGroup(rem: seq<Octet>)
    requires rem != [] && |rem| % 3 == 0
    ensures |rem| >= 3 && |rem[3..]| % 3 == 0
    ensures rem[3..] == if |rem| <= 3 then [] else rem[3..]
  {
  }

  lemma EncodeNone(data: seq<Octet>)
    requires data == []
    ensures Encode(data) == ""
  {
  }

  // ----- base64_encode -----

  /** One round of the general loop: as many of the next four characters as there is room for. */
  method EncodeRound(d: seq<Octet>, out: array<char>, o0: nat, outlen0: nat)
      returns (o: nat, outlen: nat, inlen: nat)
    requires |d| >= 1 && outlen0 >= 1 && o0 + outlen0 <= out.Length
    modifies out
    ensures o0 <= o <= o0 + 4 && o + outlen == o0 + outlen0
    ensures outlen > 0 ==> o == o0 + 4
    ensures o == o0 + 4 && outlen > 0 ==> inlen == if |d| <= 3 then 0 else |d| - 3
    ensures out[..] == old(out[..o0]) + EncodeGroup(d)[..o - o0] + old(out[o..])
  {
    hide Letter, EncodeGroup, Bits0, Bits1, Bits2, Bits3;
    GroupFromBits(d);
    inlen, o, outlen := |d|, o0, outlen0;
    out[o], o, outlen := Letter(Bits0(d[0])), o + 1, outlen - 1;
    if outlen == 0 { return; }
    inlen := inlen - 1;
    out[o], o, outlen := Letter(Bits1(d[0], if inlen != 0 then d[1] else 0)), o + 1, outlen - 1;
    if outlen == 0 { return; }
    if inlen != 0 {
      inlen := inlen - 1;
      out[o] := Letter(Bits2(d[1], if inlen != 0 then d[2] else 0));
    } else {
      out[o] := '=';
    }
    o, outlen := o + 1, outlen - 1;
    if outlen == 0 { return; }
    out[o], o, outlen := if inlen != 0 then Letter(Bits3(d[2])) else '=', o + 1, outlen - 1;
    if outlen == 0 { return; }
    if inlen != 0 {
      inlen := inlen - 1;
    }
  }

  lemma RoundText(text: string, o: nat, rem: seq<Octet>, o': nat)
    requires rem != [] && o <= |text| && text == text[..o] + Encode(rem) && o <= o' <= o + 4
    ensures o + 4 <= |text| && text[..o'] == text[..o] + EncodeGroup(rem)[..o' - o]
    ensures text == text[..o + 4] + Encode(if |rem| <= 3 then [] else rem[3..])
  {
    hide Encode, EncodeGroup;
    EncodeStep(rem);
    var next := Encode(if |rem| <= 3 then [] else rem[3..]);
    assert text == text[..o] + EncodeGroup(rem) + next;
  }

  /** `base64_encode` */
  method EncodeInto(data: seq<Octet>, out: array<char>, outlen: nat)
    requires outlen <= out.Length
    modifies out
    ensures out[..] == Received(Encode(data), outlen) + old(out[|Received(Encode(data), outlen)|..])
  {
    hide Encode;
    EncodeLength(data);
    if outlen % 4 == 0 && |data| == outlen / 4 * 3 {
      EncodeFast(data, out);
    } else {
      var o, left := EncodeRounds(data, out, outlen);
      if left != 0 {
        out[o] := '\0';
      }
    }
  }

  /** The general loop: the whole text, or what fits of it. */
  method EncodeRounds(data: seq<Octet>, out: array<char>, outlen: nat) returns (o: nat, left: nat)
    requires outlen <= out.Length
    modifies out
    ensures o + left == outlen && o <= |Encode(data)| && (left != 0 ==> o == |Encode(data)|)
    ensures out[..] == Encode(data)[..o] + old(out[o..])
  {
    hide Encode, EncodeGroup;
    ghost var text := Encode(data);
    var rem := data;
    o, left := 0, outlen;
    while rem != [] && left != 0
      invariant o + left == outlen && o <= |text|
      invariant left > 0 ==> text == text[..o] + Encode(rem)
      invariant out[..] == text[..o] + old(out[o..])
      decreases |rem|, left
    {
      ghost var before := out[..];
      var o', left', inlen := EncodeRound(rem, out, o, left);
      RoundText(text, o, rem, o');
      assert before[o'..] == old(out[o'..]);
      rem := if left' > 0 && inlen != 0 then rem[3..] else [];
      o, left := o', left';
    }
    EncodeNone([]);
  }

  // ----- base64_encode_alloc -----

  /** The size computed for the buffer, with every operation on a size_t wrapping around. */
  function AllocSize(inlen: SizeT): SizeT {
    (1 + (inlen + 2) % TWO_64 / 3 * 4 % TWO_64) % TWO_64
  }

  /** The test `inlen > outlen` finds every overflow of the size computation, and nothing else. */
  lemma OverflowTestExact(inlen: SizeT)
    ensures inlen > AllocSize(inlen) <==> 1 + EncodedLength(inlen) > SIZE_MAX
    ensures inlen <= AllocSize(inlen) ==> AllocSize(inlen) == 1 + EncodedLength(inlen)
  {
    var q := (inlen + 2) / 3;
    assert 3 * q - 2 <= inlen <= 3 * q;
    if inlen + 2 >= TWO_64 {
      DivUnique(inlen + 2, TWO_64, 1, inlen + 2 - TWO_64);
    } else {
      AllocSizeIs(inlen, q);
    }
  }

  lemma AllocSizeIs(inlen: SizeT, q: nat)
    requires inlen + 2 < TWO_64 && q == (inlen + 2) / 3
    ensures AllocSize(inlen) == if 4 * q + 1 < TWO_64 then 4 * q + 1 else 4 * q + 1 - TWO_64
  {
    assert (inlen + 2) % TWO_64 == inlen + 2;
    WrapOnce(4 * q);
    WrapOnce(1 + (if 4 * q < TWO_64 then 4 * q else 4 * q - TWO_64));
  }

  lemma WrapOnce(x: int)
    requires 0 <= x < 2 * TWO_64
    ensures x % TWO_64 == if x < TWO_64 then x else x - TWO_64
  {
    DivUnique(x, TWO_64, if x < TWO_64 then 0 else 1, if x < TWO_64 then x else x - TWO_64);
  }

  datatype Allocated = TooLong | OutOfMemory(size: SizeT) | Encoded(buffer: array<char>, length: SizeT)

  /** `base64_encode_alloc`; `outOfMemory` is the outcome of the call of malloc. */
  method EncodeAlloc(data: seq<Octet>, outOfMemory: bool) returns (r: Allocated)
    requires |data| <= SIZE_MAX
    ensures r.TooLong? <==> 1 + EncodedLength(|data|) > SIZE_MAX
    ensures r.OutOfMemory? ==> r.size == 1 + EncodedLength(|data|)
    ensures r.Encoded? ==> fresh(r.buffer) && r.length == |Encode(data)| && r.buffer[..] == Encode(data) + "\0"
  {
    hide Encode, AllocSize;
    OverflowTestExact(|data|);
    EncodeLength(data);
    var outlen := AllocSize(|data|);
    if |data| > outlen {
      return TooLong;
    }
    if outOfMemory {
      return OutOfMemory(outlen);
    }
    var out := new char[outlen];
    EncodeInto(data, out, outlen);
    return Encoded(out, outlen - 1);
  }
}
