/** The streaming decoder of gl/base64.c: input arrives in chunks, newlines may be anywhere, and a group of four
    characters may be spread over several chunks. */
module Base64Decode {
  import opened MachineInts
  import opened Bytes
  import opened Base64

  // ----- decode_4 -----

  /** What `decode_4` makes of its input: up to three bytes from the first four characters. It fails on fewer
      than four characters, and on padding unless exactly four are given. */
  function DecodeFirst(t: string): (r: Outcome)
    ensures r.rest == "" && |r.bytes| <= 3
  {
    if |t| < 2 || !IsBase64(t[0]) || !IsBase64(t[1]) then Outcome([], false, "")
    else
      var b0 := Byte0(t[0], t[1]);
      if |t| == 2 then Outcome([b0], false, "")
      else if t[2] == '=' then Outcome([b0], |t| == 4 && t[3] == '=', "")
      else if !IsBase64(t[2]) then Outcome([b0], false, "")
      else
        var b1 := Byte1(t[1], t[2]);
        if |t| == 3 then Outcome([b0, b1], false, "")
        else if t[3] == '=' then Outcome([b0, b1], |t| == 4, "")
        else if !IsBase64(t[3]) then Outcome([b0, b1], false, "")
        else Outcome([b0, b1, Byte2(t[2], t[3])], true, "")
  }

  /** As many of the bytes as a buffer of n bytes can take. */
  function Fit<T>(bytes: seq<T>, n: nat): seq<T> {
    if |bytes| <= n then bytes else bytes[..n]
  }

  lemma FitAppend<T>(a: seq<T>, b: seq<T>, n: nat)
    ensures |Fit(a, n)| <= n && Fit(a, n) + Fit(b, n - |Fit(a, n)|) == Fit(a + b, n)
  {
  }

  /** The part of a buffer in front of o holds `before` and as much of `bytes` as n bytes can take. */
  ghost predicate Written(out: array<Octet>, before: seq<Octet>, bytes: seq<Octet>, n: nat, o: nat, left: nat)
    reads out
  {
    && o + left == |before| + n <= out.Length
    && o == |before| + |Fit(bytes, n)|
    && out[..o] == before + Fit(bytes, n)
  }

  /** `if (*outleft) { *out++ = b; --*outleft; }` */
  method PutByte(out: array<Octet>, o: nat, left: nat, b: Octet,
                 ghost before: seq<Octet>, ghost bytes: seq<Octet>, ghost n: nat) returns (o': nat, left': nat)
    requires Written(out, before, bytes, n, o, left)
    modifies out
    ensures Written(out, before, bytes + [b], n, o', left') && o <= o'
    ensures out[o'..] == old(out[o'..])
  {
    o', left' := o, left;
    if left != 0 {
      out[o] := b;
      o', left' := o + 1, left - 1;
    }
  }

  // ----- Bytes from the fields of table entries -----

  /** (b64[in[0]] << 2) | (b64[in[1]] >> 4) */
  function Joined0(v0: bv8, v1: bv8): bv8 { (v0 << 2) | (v1 >> 4) }

  /** ((b64[in[1]] << 4) & 0xf0) | (b64[in[2]] >> 2) */
  function Joined1(v1: bv8, v2: bv8): bv8 { ((v1 << 4) & 0xf0) | (v2 >> 2) }

  /** ((b64[in[2]] << 6) & 0xc0) | b64[in[3]] */
  function Joined2(v2: bv8, v3: bv8): bv8 { ((v2 << 6) & 0xc0) | v3 }

  /** Six bits. */
  function SixBits(n: nat): (v: bv8)
    requires n < 64
    ensures v < 64 && v as int == n
  {
    n as bv8
  }

  /** The entry of the table for a character of the alphabet. */
  function Entry(c: char): bv8
    requires IsBase64(c)
  {
    SixBits(B64(c))
  }

  lemma FieldsShifted(b: bv8)
    requires b < 64
    ensures (b >> 4) as int == b as int / 16 && b >> 4 < 4
    ensures (b >> 2) as int == b as int / 4 && b >> 2 < 16
  {
  }

  lemma LowBits4(a: bv8)
    requires a < 64
    ensures (a & 0xf) as int == a as int % 16 && a & 0xf < 16
  {
    assert a as int == (a >> 4) as int * 16 + (a & 0xf) as int;
  }

  lemma LowBits2(a: bv8)
    requires a < 64
    ensures (a & 3) as int == a as int % 4 && a & 3 < 4
  {
    assert a as int == (a >> 2) as int * 4 + (a & 3) as int;
  }

  lemma MaskedShift(a: bv8)
    ensures (a << 4) & 0xf0 == (a & 0xf) << 4
    ensures (a << 6) & 0xc0 == (a & 3) << 6
  {
  }

  lemma JoinAt2(a: bv8, b: bv8)
    requires a < 64 && b < 4
    ensures ((a << 2) | b) as int == a as int * 4 + b as int
  {
  }

  lemma JoinAt4(a: bv8, b: bv8)
    requires a < 16 && b < 16
    ensures ((a << 4) | b) as int == a as int * 16 + b as int
  {
  }

  lemma JoinAt6(a: bv8, b: bv8)
    requires a < 4 && b < 64
    ensures ((a << 6) | b) as int == a as int * 64 + b as int
  {
  }

  lemma Joined0Value(v0: bv8, v1: bv8)
    requires v0 < 64 && v1 < 64
    ensures Joined0(v0, v1) as int == v0 as int * 4 + v1 as int / 16
  {
    FieldsShifted(v1);
    JoinAt2(v0, v1 >> 4);
  }

  lemma Joined1Value(v1: bv8, v2: bv8)
    requires v1 < 64 && v2 < 64
    ensures Joined1(v1, v2) as int == v1 as int % 16 * 16 + v2 as int / 4
  {
    FieldsShifted(v2);
    LowBits4(v1);
    MaskedShift(v1);
    JoinAt4(v1 & 0xf, v2 >> 2);
  }

  lemma Joined2Value(v2: bv8, v3: bv8)
    requires v2 < 64 && v3 < 64
    ensures Joined2(v2, v3) as int == v2 as int % 4 * 64 + v3 as int
  {
    LowBits2(v2);
    MaskedShift(v2);
    JoinAt6(v2 & 3, v3);
  }

  /** The ors and masks of the code give the bytes of the definition: the fields do not overlap. */
  lemma FieldsJoined(c: char, d: char)
    requires IsBase64(c) && IsBase64(d)
    ensures Joined0(Entry(c), Entry(d)) as int == Byte0(c, d)
    ensures Joined1(Entry(c), Entry(d)) as int == Byte1(c, d)
    ensures Joined2(Entry(c), Entry(d)) as int == Byte2(c, d)
  {
    hide Joined0, Joined1, Joined2, SixBits, B64;
    Joined0Value(Entry(c), Entry(d));
    Joined1Value(Entry(c), Entry(d));
    Joined2Value(Entry(c), Entry(d));
  }

  /** `decode_4` */
  method Decode4(t: string, out: array<Octet>, o: nat, left: nat) returns (ok: bool, o': nat, left': nat)
    requires o + left <= out.Length
    modifies out
    ensures ok == DecodeFirst(t).ok
    ensures o' == o + |Fit(DecodeFirst(t).bytes, left)| && o' + left' == o + left
    ensures out[..] == old(out[..o]) + Fit(DecodeFirst(t).bytes, left) + old(out[o'..])
  {
    hide B64, Byte0, Byte1, Byte2;
    ghost var before := out[..o];
    ok, o', left' := Decode4Stores(t, out, o, left);
    assert out[..] == out[..o'] + out[o'..];
  }

  method Decode4Stores(t: string, out: array<Octet>, o: nat, left: nat) returns (ok: bool, o': nat, left': nat)
    requires o + left <= out.Length
    modifies out
    ensures ok == DecodeFirst(t).ok && o <= o' <= out.Length
    ensures Written(out, old(out[..o]), DecodeFirst(t).bytes, left, o', left')
    ensures out[o'..] == old(out[o'..])
  {
    hide B64, Byte0, Byte1, Byte2, Joined0, Joined1, Joined2, Entry, SixBits, Written;
    ghost var before := out[..o];
    o', left', ok := o, left, false;
    NothingWritten(out, o, left);
    if |t| < 2 || !IsBase64(t[0]) || !IsBase64(t[1]) {
      return;
    }
    FieldsJoined(t[0], t[1]);
    var b0 := Joined0(Entry(t[0]), Entry(t[1])) as int;
    o', left' := PutByte(out, o', left', b0, before, [], left);
    WrittenBounds(out, before, [] + [b0], left, o', left');
    assert [] + [b0] == [b0];
    if |t| == 2 {
      return;
    }
    if t[2] == '=' {
      ok := |t| == 4 && t[3] == '=';
      return;
    }
    if !IsBase64(t[2]) {
      return;
    }
    FieldsJoined(t[1], t[2]);
    var b1 := Joined1(Entry(t[1]), Entry(t[2])) as int;
    o', left' := PutByte(out, o', left', b1, before, [b0], left);
    WrittenBounds(out, before, [b0] + [b1], left, o', left');
    assert [b0] + [b1] == [b0, b1];
    if |t| == 3 {
      return;
    }
    if t[3] == '=' {
      ok := |t| == 4;
      return;
    }
    if !IsBase64(t[3]) {
      return;
    }
    FieldsJoined(t[2], t[3]);
    var b2 := Joined2(Entry(t[2]), Entry(t[3])) as int;
    o', left' := PutByte(out, o', left', b2, before, [b0, b1], left);
    WrittenBounds(out, before, [b0, b1] + [b2], left, o', left');
    assert [b0, b1] + [b2] == [b0, b1, b2];
    ok := true;
  }

  lemma NothingWritten(out: array<Octet>, o: nat, left: nat)
    requires o + left <= out.Length
    ensures Written(out, out[..o], [], left, o, left)
  {
  }

  lemma WrittenBounds(out: array<Octet>, before: seq<Octet>, bytes: seq<Octet>, n: nat, o: nat, left: nat)
    requires Written(out, before, bytes, n, o, left)
    ensures o <= out.Length
  {
  }

  lemma NotInAlphabet()
    ensures !IsBase64('\n') && !IsBase64('=')
  {
  }

  /** Success means a good group without newlines, whatever follows it. */
  lemma DecodeFirstIsGroup(t: string)
    ensures |t| == 4 ==> DecodeFirst(t) == DecodeGroup(t)
    ensures DecodeFirst(t).ok ==> |t| >= 4 && '\n' !in t[..4] && DecodeGroup(t[..4]) == DecodeFirst(t)
    ensures t == "" || t[0] == '\n' ==> DecodeFirst(t).bytes == []
  {
    hide B64, Byte0, Byte1, Byte2;
    NotInAlphabet();
    if |t| == 4 {
      assert t[..4] == t;
    }
  }

  // ----- Decoding without a context -----

  /** Newlines are garbage and padding is accepted only at the very end. */
  function DecodeUnit(t: string): Outcome {
    if t == "" then Outcome([], true, "")
    else
      var g := DecodeFirst(t);
      if g.ok then DecodeFirstIsGroup(t); Prepend(g.bytes, DecodeUnit(t[4..])) else g
  }

  // ----- The context -----

  /** struct base64_decode_context. A count of 4 means that the group in the buffer is done with. */
  class DecodeContext {
    var i: nat
    const buf: array<char>

    ghost predicate Valid()
      reads this
    {
      i <= 4 && buf.Length == 4
    }

    /** The unfinished group. */
    ghost function Pending(): string
      requires Valid()
      reads this, buf
    {
      if i == 4 then "" else buf[..i]
    }

    /** base64_decode_ctx_init */
    constructor ()
      ensures Valid() && fresh(buf) && Pending() == ""
    {
      i := 0;
      buf := new char[4];
    }

    /** `get_4`: the characters that the returned pointer gives access to, and the position after those used up. */
    method Get4(inp: string, pos: nat) returns (group: string, pos': nat)
      requires Valid() && pos <= |inp|
      modifies this`i, buf
      ensures Valid() && |group| <= 4 && pos <= pos' <= |inp|
      ensures group == old(Pending()) + Strip(inp[pos..pos'])
      ensures |group| < 4 ==> pos' == |inp| && Pending() == group
      ensures |group| == 4 ==> pos' > pos && Pending() == ""
    {
      hide Strip;
      if i == 4 {
        i := 0;
      }
      if i == 0 {
        if 4 <= |inp| - pos && '\n' !in inp[pos..pos + 4] {
          StripKeeps(inp[pos..pos + 4]);
          return inp[pos..pos + 4], pos + 4;
        }
      }
      pos' := CopyVisible(inp, pos);
      group := buf[..i];
    }

    /** Copy characters other than newlines into the buffer until it is full or the input ends. */
    method CopyVisible(inp: string, pos: nat) returns (pos': nat)
      requires Valid() && i < 4 && pos <= |inp|
      modifies this`i, buf
      ensures Valid() && pos <= pos' <= |inp|
      ensures buf[..i] == old(buf[..i]) + Strip(inp[pos..pos'])
      ensures i < 4 ==> pos' == |inp|
      ensures i == 4 ==> pos' > pos
    {
      hide Strip;
      ghost var before := buf[..i];
      pos' := pos;
      StripNothing(inp[pos..pos]);
      while pos' < |inp|
        invariant pos <= pos' <= |inp| && i < 4 && buf.Length == 4
        invariant buf[..i] == before + Strip(inp[pos..pos'])
      {
        var c := inp[pos'];
        StripOneMore(inp, pos, pos');
        pos' := pos' + 1;
        if c != '\n' {
          ghost var sofar := buf[..i];
          buf[i] := c;
          i := i + 1;
          assert buf[..i] == sofar + [c];
          if i == 4 {
            break;
          }
        }
      }
    }
  }

  lemma StripNothing(t: string)
    requires t == ""
    ensures Strip(t) == ""
  {
  }

  lemma StripOneMore(inp: string, pos: nat, k: nat)
    requires pos <= k < |inp|
    ensures Strip(inp[pos..k + 1]) == Strip(inp[pos..k]) + (if inp[k] == '\n' then "" else [inp[k]])
  {
    assert inp[pos..k + 1] == inp[pos..k] + [inp[k]];
    StripAppend(inp[pos..k], [inp[k]]);
    assert Strip([inp[k]]) == Visible(inp[k]) + Strip("");
  }

  // ----- base64_decode_ctx -----

  /** What one call has to do, by its mode: without a context, with an empty input to flush the context, or with
      more input for the group that the context has pending. */
  function DecodeCall(hasCtx: bool, flush: bool, pending: string, t: string): Outcome {
    if !hasCtx then DecodeUnit(t)
    else if flush then (if pending == "" then Outcome([], true, "") else Outcome(DecodeFirst(pending).bytes, false, ""))
    else DecodeGroups(pending + Strip(t))
  }

  /** A good group at the front can be taken off in every mode, if nothing is pending. */
  lemma TakeGroup(hasCtx: bool, t: string)
    requires DecodeFirst(t).ok
    ensures |t| >= 4
    ensures DecodeCall(hasCtx, false, "", t) == Prepend(DecodeFirst(t).bytes, DecodeCall(hasCtx, false, "", t[4..]))
  {
    hide DecodeFirst, DecodeGroup;
    DecodeFirstIsGroup(t);
    StripKeeps(t[..4]);
    StripAppend(t[..4], t[4..]);
    assert t == t[..4] + t[4..];
    var s := "" + Strip(t);
    assert s[..4] == t[..4] && s[4..] == "" + Strip(t[4..]);
  }

  /** The inner loop: groups decoded where they lie in the input, as long as that goes well. The attempt that
      fails may have written bytes too; `saved` is what was left of the buffer before it. */
  method FastGroups(hasCtx: bool, inp: string, pos: nat, out: array<Octet>, o: nat, left: nat,
                    ghost n: nat, ghost done: seq<Octet>)
      returns (pos': nat, o': nat, left': nat, saved: nat, ghost done': seq<Octet>)
    requires pos <= |inp| && Written(out, [], done, n, o, left)
    modifies out
    ensures pos <= pos' <= |inp| && !DecodeFirst(inp[pos'..]).ok
    ensures Prepend(done, DecodeCall(hasCtx, false, "", inp[pos..]))
         == Prepend(done', DecodeCall(hasCtx, false, "", inp[pos'..]))
    ensures left' <= saved && saved - left' <= o' && Written(out, [], done', n, o' - (saved - left'), saved)
    ensures (pos' == |inp| || inp[pos'] == '\n') ==> left' == saved
    ensures n <= out.Length && out[n..] == old(out[n..])
  {
    hide DecodeCall, DecodeFirst, Written, Fit;
    pos', o', left', done' := pos, o, left, done;
    WrittenLength(out, done, n, o, left);
    while true
      invariant pos <= pos' <= |inp| && Written(out, [], done', n, o', left') && o' + left' == n <= out.Length
      invariant Prepend(done, DecodeCall(hasCtx, false, "", inp[pos..]))
           == Prepend(done', DecodeCall(hasCtx, false, "", inp[pos'..]))
      invariant out[n..] == old(out[n..])
      decreases |inp| - pos'
    {
      saved := left';
      var t := inp[pos'..];
      ghost var bytes, o1 := DecodeFirst(t).bytes, o';
      ghost var before := out[..];
      WrittenLength(out, done', n, o', left');
      var ok;
      ok, o', left' := Decode4(t, out, o', left');
      AfterDecode4(before, out, done', bytes, n, o1, saved, o', left');
      if !ok {
        DecodeFirstIsGroup(t);
        NewlineWritesNothing(t, bytes, saved);
        break;
      }
      TakeGroup(hasCtx, t);
      PrependTwice(done', bytes, DecodeCall(hasCtx, false, "", t[4..]));
      assert t[4..] == inp[pos' + 4..];
      done' := done' + bytes;
      pos' := pos' + 4;
    }
  }

  lemma WrittenLength(out: array<Octet>, done: seq<Octet>, n: nat, o: nat, left: nat)
    requires Written(out, [], done, n, o, left)
    ensures o + left == n <= out.Length && o == |Fit(done, n)| && out[..o] == Fit(done, n)
  {
    assert [] + Fit(done, n) == Fit(done, n);
  }

  lemma NewlineWritesNothing(t: string, bytes: seq<Octet>, n: nat)
    requires bytes == DecodeFirst(t).bytes
    ensures t == "" || t[0] == '\n' ==> Fit(bytes, n) == []
  {
    hide DecodeFirst;
    DecodeFirstIsGroup(t);
  }

  /** After decode_4 the buffer holds what it held before and the new bytes, as far as they fit. */
  lemma AfterDecode4(before: seq<Octet>, out: array<Octet>, done: seq<Octet>, bytes: seq<Octet>, n: nat,
                     o: nat, left: nat, o': nat, left': nat)
    requires |before| == out.Length && o + left == n <= out.Length
    requires o == |Fit(done, n)| && before[..o] == Fit(done, n)
    requires o' == o + |Fit(bytes, left)| && o' + left' == o + left
    requires out[..] == before[..o] + Fit(bytes, left) + before[o'..]
    ensures Written(out, [], done + bytes, n, o', left')
    ensures Written(out, [], done, n, o, left)
    ensures out[n..] == before[n..]
  {
    FitAppend(done, bytes, n);
  }

  ghost function PendingIn(ctx: DecodeContext?): string
    requires ctx != null ==> ctx.Valid()
    reads ctx, if ctx == null then {} else {ctx.buf}
  {
    if ctx == null then "" else ctx.Pending()
  }

  lemma SkipNewline(pending: string, t: string)
    requires |t| >= 1 && t[0] == '\n'
    ensures DecodeCall(true, false, pending, t) == DecodeCall(true, false, pending, t[1..])
  {
    assert Strip(t) == "" + Strip(t[1..]) == Strip(t[1..]);
  }

  /** A group put together from pending characters and new ones. */
  lemma TakeVisible(pending: string, t: string, k: nat, group: string)
    requires k <= |t| && group == pending + Strip(t[..k])
    ensures |group| == 4 && DecodeFirst(group).ok ==>
              DecodeCall(true, false, pending, t)
              == Prepend(DecodeFirst(group).bytes, DecodeCall(true, false, "", t[k..]))
    ensures |group| == 4 && !DecodeFirst(group).ok ==>
              DecodeCall(true, false, pending, t) == Outcome(DecodeFirst(group).bytes, false, "")
    ensures |group| < 4 && k == |t| ==> DecodeCall(true, false, pending, t) == Outcome([], true, group)
  {
    hide DecodeFirst, DecodeGroup, Strip;
    DecodeFirstIsGroup(group);
    StripAppend(t[..k], t[k..]);
    assert t == t[..k] + t[k..];
    var s := pending + Strip(t);
    assert s == group + Strip(t[k..]) && "" + Strip(t[k..]) == Strip(t[k..]);
    if |group| == 4 {
      assert s[..4] == group && s[4..] == Strip(t[k..]);
    } else if k == |t| {
      StripNothing(t[k..]);
    }
  }

  /** What a group means for the rest of the call, however it was found. */
  lemma TakeAny(hasCtx: bool, flush: bool, pending: string, t: string, k: nat, group: string)
    requires k <= |t| && |pending| < 4 && (flush ==> hasCtx && t == "")
    requires if hasCtx then group == pending + Strip(t[..k]) && |group| <= 4 && (|group| < 4 ==> k == |t|)
             else group == t && t != "" && !DecodeFirst(t).ok
    ensures DecodeFirst(group).ok && group != "" ==>
              && hasCtx && !flush && |group| == 4
              && DecodeCall(hasCtx, flush, pending, t)
                 == Prepend(DecodeFirst(group).bytes, DecodeCall(hasCtx, flush, "", t[k..]))
    ensures !DecodeFirst(group).ok && group != "" && (|group| == 4 || flush || !hasCtx) ==>
              DecodeCall(hasCtx, flush, pending, t) == Outcome(DecodeFirst(group).bytes, false, "")
    ensures hasCtx && |group| < 4 && (!flush || group == "") ==>
              DecodeCall(hasCtx, flush, pending, t) == Outcome([], true, group)
  {
    hide DecodeFirst, Strip, DecodeGroups;
    DecodeFirstIsGroup(group);
    assert !DecodeFirst(group).ok ==> DecodeFirst(group) == Outcome(DecodeFirst(group).bytes, false, "");
    if hasCtx {
      TakeVisible(pending, t, k, group);
      if flush {
        StripNothing(t[..k]);
        assert pending + "" == pending;
      }
    }
  }

  /** The second half of the loop in base64_decode_ctx: decode a group that need not lie in one piece in the
      input, or find that there is none. `finished` tells that the loop is left, then with `left` in its final
      state and `rest` telling whether input remains. */
  method SlowGroup(ctx: DecodeContext?, flush: bool, inp: string, pos: nat, out: array<Octet>, o: nat, left: nat,
                   ghost n: nat, ghost done: seq<Octet>, ghost total: Outcome)
      returns (finished: bool, rest: nat, pos': nat, o': nat, left': nat, ghost done': seq<Octet>)
    requires (ctx != null ==> ctx.Valid()) && pos <= |inp| && (flush ==> ctx != null && inp == "")
    requires pos == |inp| ==> flush
    requires Written(out, [], done, n, o, left)
    requires total == Prepend(done, DecodeCall(ctx != null, flush, PendingIn(ctx), inp[pos..]))
    requires ctx == null ==> !DecodeFirst(inp[pos..]).ok
    modifies out, ctx, if ctx == null then {} else {ctx.buf}
    ensures ctx != null ==> ctx.Valid()
    ensures n <= out.Length && Written(out, [], done', n, o', left') && out[n..] == old(out[n..])
    ensures !finished ==>
              && pos < pos' <= |inp| && rest == |inp| - pos' && ctx != null && ctx.Pending() == "" && !flush
              && total == Prepend(done', DecodeCall(true, false, "", inp[pos'..]))
    ensures finished ==> done' == total.bytes && (rest == 0) == total.ok
    ensures finished && rest == 0 && ctx != null ==> ctx.Pending() == total.rest
  {
    hide DecodeCall, DecodeFirst, Written, Fit, Strip;
    ghost var hasCtx, pending, t := ctx != null, PendingIn(ctx), inp[pos..];
    o', left', done' := o, left, done;
    WrittenLength(out, done, n, o, left);
    var group;
    if ctx != null {
      group, pos' := ctx.Get4(inp, pos);
    } else {
      group, pos' := inp[pos..], pos;
    }
    rest := |group|;
    ghost var k := pos' - pos;
    assert t[..k] == inp[pos..pos'] && t[k..] == inp[pos'..];
    TakeAny(hasCtx, flush, pending, t, k, group);
    if rest == 0 || (rest < 4 && !flush && ctx != null) {
      rest := 0;
      assert total == Prepend(done, Outcome([], true, group));
      assert done + [] == done;
      return true, rest, pos', o', left', done;
    }
    ghost var before, bytes := out[..], DecodeFirst(group).bytes;
    var ok;
    ok, o', left' := Decode4(group, out, o', left');
    AfterDecode4(before, out, done, bytes, n, o, left, o', left');
    done' := done + bytes;
    finished := !ok;
    if ok {
      PrependTwice(done, bytes, DecodeCall(true, false, "", t[k..]));
      rest := |inp| - pos';
    }
  }

  /** `base64_decode_ctx`, its input, verdict and output being those of one call; ctx may be null. */
  method DecodeCtx(ctx: DecodeContext?, inp: string, out: array<Octet>, outlen: nat) returns (ok: bool, written: nat)
    requires (ctx != null ==> ctx.Valid()) && outlen <= out.Length
    modifies out, ctx, if ctx == null then {} else {ctx.buf}
    ensures ctx != null ==> ctx.Valid()
    ensures var r := DecodeCall(ctx != null, ctx != null && inp == "", old(PendingIn(ctx)), inp);
            && ok == r.ok
            && written == |Fit(r.bytes, outlen)| && out[..written] == Fit(r.bytes, outlen)
            && (ok && ctx != null ==> ctx.Pending() == r.rest)
    ensures out[outlen..] == old(out[outlen..])
  {
    hide DecodeCall, DecodeFirst, Written, Fit, Strip;
    var left, hasCtx, flush, ctxI := outlen, ctx != null, false, 0;
    if hasCtx {
      ctxI := ctx.i;
      flush := |inp| == 0;
    }
    var pos: nat, o: nat, inlen: nat := 0, 0, |inp|;
    ghost var total := DecodeCall(hasCtx, flush, PendingIn(ctx), inp);
    ghost var done: seq<Octet> := [];
    StartWriting(out, outlen, total);
    assert inp[0..] == inp;
    while true
      invariant pos <= |inp| && inlen == |inp| - pos && (flush ==> hasCtx && inp == "")
      invariant Written(out, [], done, outlen, o, left)
      invariant hasCtx ==> ctx.Valid() && (ctxI == 0 ==> ctx.Pending() == "")
      invariant total == Prepend(done, DecodeCall(hasCtx, flush, PendingIn(ctx), inp[pos..]))
      invariant out[outlen..] == old(out[outlen..])
      decreases inlen
    {
      var saved := left;
      if ctxI == 0 && !flush {
        pos, o, left, saved, done := FastGroups(hasCtx, inp, pos, out, o, left, outlen, done);
        inlen := |inp| - pos;
      }
      if inlen == 0 && !flush {
        EndOfInput(hasCtx, PendingIn(ctx), inp[pos..], done);
        break;
      }
      if inlen != 0 && inp[pos] == '\n' && hasCtx {
        SkipNewline(PendingIn(ctx), inp[pos..]);
        assert inp[pos..][1..] == inp[pos + 1..];
        pos := pos + 1;
        inlen := inlen - 1;
        continue;
      }
      o := o - (saved - left);
      left := saved;
      var finished;
      finished, inlen, pos, o, left, done := SlowGroup(ctx, flush, inp, pos, out, o, left, outlen, done, total);
      if finished {
        break;
      }
    }
    WrittenLength(out, done, outlen, o, left);
    written := outlen - left;
    ok := inlen == 0;
  }

  lemma StartWriting(out: array<Octet>, n: nat, r: Outcome)
    requires n <= out.Length
    ensures Written(out, [], [], n, 0, n) && Prepend([], r) == r
  {
    assert [] + r.bytes == r.bytes;
  }

  lemma EndOfInput(hasCtx: bool, pending: string, t: string, done: seq<Octet>)
    requires t == "" && |pending| < 4 && (!hasCtx ==> pending == "")
    ensures Prepend(done, DecodeCall(hasCtx, false, pending, t)) == Outcome(done, true, pending)
  {
    hide DecodeGroup, DecodeFirst;
    assert pending + Strip("") == pending && done + [] == done;
  }

  // ----- base64_decode_alloc_ctx -----

  /** The size computed without overflow before decoding. */
  function NeedLen(inlen: SizeT): SizeT
    requires inlen <= SIZE_MAX
  {
    3 * (inlen / 4) + 3
  }

  lemma {:induction false} DecodeUnitBytes(t: string)
    ensures |DecodeUnit(t).bytes| <= 3 * (|t| / 4) + 2
  {
    hide DecodeFirst;
    if t != "" {
      var g := DecodeFirst(t);
      DecodeFirstIsGroup(t);
      if g.ok {
        DecodeUnitBytes(t[4..]);
        assert |DecodeUnit(t).bytes| == |g.bytes| + |DecodeUnit(t[4..]).bytes|;
      } else {
        ShortGroupBytes(t);
      }
    }
  }

  lemma ShortGroupBytes(t: string)
    ensures |t| < 4 || !DecodeFirst(t).ok ==> |DecodeFirst(t).bytes| <= 2
  {
  }

  /** One call never yields more bytes than were allocated for it, what is pending included. */
  lemma NeedLenSuffices(hasCtx: bool, pending: string, t: string)
    requires |pending| < 4 && |t| <= SIZE_MAX
    ensures |DecodeCall(hasCtx, hasCtx && t == "", pending, t).bytes| <= NeedLen(|t|)
  {
    hide DecodeFirst, DecodeUnit, DecodeGroups, DecodeGroup, Strip;
    if !hasCtx {
      DecodeUnitBytes(t);
    } else if t == "" {
      ShortGroupBytes(pending);
    } else {
      StripShortens(t);
      DecodeGroupsRest(pending + Strip(t));
    }
  }

  /** `base64_decode_alloc_ctx`; `outOfMemory` is the outcome of the call of malloc. Nothing is ever cut off. */
  method DecodeAllocCtx(ctx: DecodeContext?, inp: string, outOfMemory: bool)
      returns (ok: bool, out: array?<Octet>, outlen: nat)
    requires (ctx != null ==> ctx.Valid()) && |inp| <= SIZE_MAX
    modifies ctx, if ctx == null then {} else {ctx.buf}
    ensures ctx != null ==> ctx.Valid()
    ensures outOfMemory ==> ok && out == null
    ensures !outOfMemory ==>
              var r := DecodeCall(ctx != null, ctx != null && inp == "", old(PendingIn(ctx)), inp);
              && ok == r.ok && (out == null <==> !ok)
              && (ok ==> fresh(out) && outlen == |r.bytes| <= out.Length && out[..outlen] == r.bytes)
              && (ok && ctx != null ==> ctx.Pending() == r.rest)
  {
    hide DecodeCall, NeedLen;
    var needlen := NeedLen(|inp|);
    outlen := 0;
    if outOfMemory {
      return true, null, outlen;
    }
    NeedLenSuffices(ctx != null, PendingIn(ctx), inp);
    var buffer := new Octet[needlen];
    var written;
    ok, written := DecodeCtx(ctx, inp, buffer, needlen);
    if !ok {
      return false, null, outlen;
    }
    out, outlen := buffer, written;
  }

  // ----- A whole text in chunks -----

  /** Feeding a text to one context in chunks of any sizes, up to the first call that fails, gives the bytes and
      the verdict of decoding it at once with all newlines removed; the unfinished group stays in the context. */
  method DecodeChunks(chunks: seq<string>) returns (bytes: seq<Octet>, ok: bool, ctx: DecodeContext)
    requires forall k :: 0 <= k < |chunks| ==> chunks[k] != "" && |chunks[k]| <= SIZE_MAX
    ensures ctx.Valid() && fresh(ctx) && fresh(ctx.buf)
    ensures var r := DecodeGroups(Strip(Flatten(chunks)));
            bytes == r.bytes && ok == r.ok && (ok ==> ctx.Pending() == r.rest)
  {
    hide DecodeGroups, Strip, NeedLen, DecodeFirst;
    ctx := new DecodeContext();
    bytes, ok := [], true;
    NoText();
    for k := 0 to |chunks|
      invariant ctx.Valid() && fresh(ctx) && fresh(ctx.buf)
      invariant var r := DecodeGroups(Strip(Flatten(chunks[..k])));
                bytes == r.bytes && r.ok && ctx.Pending() == r.rest
    {
      ghost var sofar, pending := Strip(Flatten(chunks[..k])), ctx.Pending();
      NeedLenSuffices(true, pending, chunks[k]);
      var out := new Octet[NeedLen(|chunks[k]|)];
      var written;
      ok, written := DecodeCtx(ctx, chunks[k], out, out.Length);
      bytes := bytes + out[..written];
      DecodeGroupsAppend(sofar, Strip(chunks[k]));
      OneMoreChunk(chunks, k);
      if !ok {
        RestIgnored(chunks, k + 1);
        return;
      }
    }
    assert chunks[..|chunks|] == chunks;
  }

  lemma NoText()
    ensures DecodeGroups(Strip(Flatten<char>([]))) == Outcome([], true, "")
  {
  }

  lemma OneMoreChunk(chunks: seq<string>, k: nat)
    requires k < |chunks|
    ensures Strip(Flatten(chunks[..k + 1])) == Strip(Flatten(chunks[..k])) + Strip(chunks[k])
  {
    hide Strip;
    assert chunks[..k + 1] == chunks[..k] + [chunks[k]];
    FlattenAppend(chunks[..k], [chunks[k]]);
    assert Flatten([chunks[k]]) == chunks[k] + Flatten([]) == chunks[k];
    StripAppend(Flatten(chunks[..k]), chunks[k]);
  }

  /** After a failure the remaining chunks make no difference. */
  lemma RestIgnored(chunks: seq<string>, k: nat)
    requires k <= |chunks| && !DecodeGroups(Strip(Flatten(chunks[..k]))).ok
    ensures DecodeGroups(Strip(Flatten(chunks))) == DecodeGroups(Strip(Flatten(chunks[..k])))
  {
    hide Strip, DecodeGroups;
    assert chunks == chunks[..k] + chunks[k..];
    FlattenAppend(chunks[..k], chunks[k..]);
    StripAppend(Flatten(chunks[..k]), Flatten(chunks[k..]));
    DecodeGroupsAppend(Strip(Flatten(chunks[..k])), Strip(Flatten(chunks[k..])));
  }

  // ----- Round trips -----

  /** Without a context, the encoding decodes to the data. */
  lemma {:induction false} DecodeUnitEncode(data: seq<Octet>)
    ensures DecodeUnit(Encode(data)) == Outcome(data, true, "")
  {
    hide DecodeFirst, EncodeGroup, DecodeGroup;
    if data != [] {
      var s, g := Encode(data), EncodeGroup(data);
      EncodeGroupDecodes(data);
      DecodeFirstIsGroup(g);
      if |data| <= 3 {
        assert s == g && s[4..] == "";
      } else {
        assert s[..4] == g && s[4..] == Encode(data[3..]);
        FullGroup(data, s);
        DecodeUnitEncode(data[3..]);
      }
    }
  }

  lemma FullGroup(data: seq<Octet>, s: string)
    requires |data| > 3 && |s| >= 4 && s[..4] == EncodeGroup(data)
    ensures DecodeFirst(s) == DecodeGroup(EncodeGroup(data))
  {
    hide Letter, B64, Byte0, Byte1, Byte2;
    LetterHasValue(data[0] / 4);
    LetterHasValue(data[0] % 4 * 16 + data[1] / 16);
    LetterHasValue(data[1] % 16 * 4 + data[2] / 64);
    LetterHasValue(data[2] % 64);
    assert s[0] == s[..4][0] && s[1] == s[..4][1] && s[2] == s[..4][2] && s[3] == s[..4][3];
  }

  /** With a context, newlines may be put into the encoding anywhere and it may be cut into chunks anywhere. */
  method DecodeWrappedText(data: seq<Octet>, chunks: seq<string>) returns (bytes: seq<Octet>, ok: bool)
    requires forall k :: 0 <= k < |chunks| ==> chunks[k] != "" && |chunks[k]| <= SIZE_MAX
    requires Strip(Flatten(chunks)) == Encode(data)
    ensures ok && bytes == data
  {
    var ctx;
    bytes, ok, ctx := DecodeChunks(chunks);
    DecodeEncode(data);
  }

  /** Padding ends the text only without a context: with one, more groups may follow it. */
  lemma PaddingInTheMiddle(g: string, t: string)
    requires |g| == 4 && DecodeGroup(g).ok && g[3] == '=' && t != ""
    ensures DecodeGroups(g + t) == Prepend(DecodeGroup(g).bytes, DecodeGroups(t))
    ensures !DecodeUnit(g + t).ok
  {
    hide B64, Byte0, Byte1, Byte2;
    assert (g + t)[..4] == g && (g + t)[4..] == t;
  }
}
