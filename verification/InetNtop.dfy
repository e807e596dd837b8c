/** gl/inet_ntop.c, as it works on its buffers. */
module InetNtop {
  import opened MachineInts
  import opened Numerals
  import opened InetText

  const NUL: char := '\0'

  /** sizeof "ffff:ffff:ffff:ffff:ffff:ffff:255.255.255.255" */
  const TMP_SIZE: nat := 46

  /** What sprintf and strcpy do: the text and a terminator, from position `at` on. */
  method Put(buf: array<char>, at: nat, text: string)
    requires at + |text| + 1 <= buf.Length
    modifies buf
    ensures buf[..at] == old(buf[..at]) && buf[at..at + |text|] == text && buf[at + |text|] == NUL
    ensures buf[at + |text| + 1..] == old(buf[at + |text| + 1..])
  {
    forall i | 0 <= i < |text| {
      buf[at + i] := text[i];
    }
    buf[at + |text|] := NUL;
  }

  /** The run found so far and the run being scanned, when the first i words have been seen. */
  predicate Scanned(w: seq<nat>, i: nat, best: Run, cur: Run)
    requires i <= |w|
  {
    && (cur.base == -1 || (0 <= cur.base < i && cur.len == i - cur.base && ZeroRun(w, cur.base, cur.len)))
    && BestBelow(w, if cur.base == -1 then i else cur.base, best)
  }

  /** `best` is the first longest run that starts below m. */
  predicate BestBelow(w: seq<nat>, m: nat, best: Run) {
    && (best.base == -1 ==> forall p: nat :: p < m ==> ZerosFrom(w, p) == 0)
    && (best.base != -1 ==>
          && 0 <= best.base < m && best.len == ZerosFrom(w, best.base) && best.len >= 1
          && (forall p: nat :: p < m ==> ZerosFrom(w, p) <= best.len)
          && forall p: nat :: p < best.base ==> ZerosFrom(w, p) < best.len)
  }

  /** From inside a run that ends at position e only the rest of it remains. */
  lemma {:induction false} ZerosUpTo(w: seq<nat>, b: nat, e: nat)
    requires b <= e <= |w| && ZeroRun(w, b, e - b) && (e == |w| || w[e] != 0)
    ensures ZerosFrom(w, b) == e - b
    decreases e - b
  {
    if b < e {
      ZerosUpTo(w, b + 1, e);
    }
  }

  /** The end of a run: it replaces the best one only if it is longer. */
  lemma RunEnds(w: seq<nat>, e: nat, best: Run, cur: Run)
    requires e <= |w| && Scanned(w, e, best, cur) && cur.base != -1 && (e == |w| || w[e] != 0)
    ensures BestBelow(w, e, if best.base == -1 || cur.len > best.len then cur else best)
  {
    hide ZerosFrom;
    forall p: nat | cur.base <= p < e
      ensures ZerosFrom(w, p) == e - p
    {
      ZerosUpTo(w, p, e);
    }
  }

  lemma NoRunHere(w: seq<nat>, i: nat, best: Run)
    requires i < |w| && w[i] != 0 && BestBelow(w, i, best)
    ensures BestBelow(w, i + 1, best)
  {
    assert ZerosFrom(w, i) == 0;
  }

  lemma BestIsBest(w: seq<nat>, best: Run)
    requires |w| == 8 && BestBelow(w, 8, best)
    ensures BestRun(w) == if best.base != -1 && best.len >= 2 then best else Run(-1, 0)
  {
    hide ZerosFrom, FirstLongest;
    var p := FirstLongest(w, 8);
    if best.base != -1 {
      FirstLongestIsFirst(w, 8, best.base);
    }
  }

  /** The first two loops of inet_ntop6. */
  method FindRun(words: array<nat>) returns (best: Run)
    requires words.Length == 8
    ensures best.base == BestRun(words[..]).base && (best.base != -1 ==> best == BestRun(words[..]))
  {
    hide ZerosFrom, BestRun;
    ghost var w := words[..];
    best := Run(-1, 0);
    var cur := Run(-1, 0);
    for i := 0 to 8
      invariant Scanned(w, i, best, cur)
    {
      if words[i] == 0 {
        if cur.base == -1 {
          cur := Run(i, 1);
        } else {
          cur := Run(cur.base, cur.len + 1);
        }
      } else {
        if cur.base != -1 {
          RunEnds(w, i, best, cur);
          if best.base == -1 || cur.len > best.len {
            best := cur;
          }
          cur := Run(-1, cur.len);
        }
        NoRunHere(w, i, best);
      }
    }
    if cur.base != -1 {
      RunEnds(w, 8, best, cur);
      if best.base == -1 || cur.len > best.len {
        best := cur;
      }
    }
    BestIsBest(w, best);
    if best.base != -1 && best.len < 2 {
      best := Run(-1, best.len);
    }
  }

  /** *tp++ = c */
  method PutChar(buf: array<char>, at: nat, c: char) returns (tp: nat)
    requires at < buf.Length
    modifies buf
    ensures tp == at + 1 && buf[..tp] == old(buf[..at]) + [c]
  {
    buf[at] := c;
    tp := at + 1;
  }

  /** How `inet_ntop4` ends. Outside is undefined: its terminator does not fit the buffer. */
  datatype Copy = Copied | NoSpace | Outside

  /** The outcome for a text of this length, when the caller passes `size` for a buffer with `room`. */
  function CopyOutcome(len: nat, size: nat, room: nat): Copy {
    if len > size then NoSpace else if len >= room then Outside else Copied
  }

  /** The test does not count the terminator: in a buffer of the size passed it goes wrong for just that length. */
  lemma OutsideExactly(len: nat, size: nat, room: nat)
    requires size <= room
    ensures CopyOutcome(len, size, room) == Outside <==> len == size == room
    ensures CopyOutcome(len, size, room) == Copied <==> len < size || len == size < room
  {
  }

  /** `inet_ntop4`: the text of an IPv4 address, at a position of a buffer. */
  method Ntop4(src: seq<Octet>, buf: array<char>, at: nat, size: nat) returns (copy: Copy)
    requires |src| == 4 && at + size <= buf.Length
    modifies buf
    ensures copy == CopyOutcome(|Dotted(src)|, size, buf.Length - at)
    ensures size == buf.Length - at ==> (copy == Outside <==> |Dotted(src)| == size)
    ensures var len := |Dotted(src)|;
            copy == Copied ==> at + len < buf.Length && buf[at + len] == NUL
                               && buf[..at + len] == old(buf[..at]) + Dotted(src)
                               && buf[at + len + 1..] == old(buf[at + len + 1..])
    ensures copy != Copied ==> buf[..] == old(buf[..])
  {
    hide Dotted;
    var len := |Dotted(src)|;
    if len > size {
      return NoSpace;
    }
    if at + len >= buf.Length {
      return Outside;
    }
    Put(buf, at, Dotted(src));
    assert buf[..at + len] == buf[..at] + buf[at..at + len];
    copy := Copied;
  }

  /** Moving a piece of text from what is to come to what has been written. */
  lemma Move(written: string, piece: string, rest: string, text: string)
    requires written + (piece + rest) == text
    ensures written + piece + rest == text && |written| + |piece| <= |text| && piece + "" == piece
  {
  }

  /** The last part: the text is in tmp and is copied if it fits. */
  method CopyOut(tmp: array<char>, tp: nat, dst: array<char>, size: nat, ghost text: string) returns (ok: bool)
    requires tp <= tmp.Length && tmp[..tp] == text + [NUL] && size <= dst.Length && dst != tmp
    modifies dst
    ensures ok <==> |text| + 1 <= size
    ensures ok ==> dst[..|text| + 1] == text + [NUL] && dst[|text| + 1..] == old(dst[|text| + 1..])
    ensures !ok ==> dst[..] == old(dst[..])
  {
    if tp > size {
      return false;
    }
    var s := tmp[..tp - 1];
    assert s == text;
    Put(dst, 0, s);
    assert dst[..|text| + 1] == dst[0..0 + |text|] + [dst[|text|]];
    ok := true;
  }

  /** `inet_ntop6` */
  method Ntop6(src: seq<Octet>, dst: array<char>, size: nat) returns (ok: bool)
    requires |src| == 16 && size <= dst.Length
    modifies dst
    ensures ok <==> |Text6(src)| + 1 <= size
    ensures ok ==> dst[..|Text6(src)| + 1] == Text6(src) + [NUL]
    ensures ok ==> dst[|Text6(src)| + 1..] == old(dst[|Text6(src)| + 1..])
    ensures !ok ==> dst[..] == old(dst[..])
  {
    hide Text6, Words, BestRun;
    var tmp := new char[TMP_SIZE];
    var words := new nat[8](i => 0);
    for i := 0 to 8
      invariant forall k :: 0 <= k < i ==> words[k] == Word(src[2 * k], src[2 * k + 1])
      invariant dst[..] == old(dst[..])
    {
      words[i] := Word(src[2 * i], src[2 * i + 1]);
    }
    assert words[..] == Words(src);
    var best := FindRun(words);
    var tp := Format(src, words[..], best, tmp);
    assert dst[..] == old(dst[..]);
    ok := CopyOut(tmp, tp, dst, size, Text6(src));
  }

  /** The third loop and the terminator: what has been written and what is still to come make up the text. */
  method Format(src: seq<Octet>, words: seq<nat>, best: Run, tmp: array<char>) returns (tp: nat)
    requires |src| == 16 && words == Words(src) && tmp.Length == TMP_SIZE
    requires best.base == BestRun(words).base && (best.base != -1 ==> best == BestRun(words))
    modifies tmp
    ensures tp <= TMP_SIZE && tmp[..tp] == Text6(src) + [NUL]
  {
    hide TextFrom, BestRun, Hex, Dotted, Words, Colon;
    ghost var r := BestRun(words);
    ghost var text := TextFrom(src, r, 0);
    Text6Length(src);
    tp := 0;
    var i := 0;
    while i < 8
      invariant 0 <= i <= 8 && tp <= |text|
      invariant tmp[..tp] + TextFrom(src, r, i) == text
    {
      if best.base != -1 && i >= best.base && i < best.base + best.len {
        TextOfRun(src, r, i);
        if i == best.base {
          Move(tmp[..tp], ":", TextFrom(src, r, i + 1), text);
          tp := PutChar(tmp, tp, ':');
        }
      } else {
        var last;
        tp, last := FormatWord(src, words, best, tmp, tp, i, text);
        if last {
          break;
        }
      }
      i := i + 1;
    }
    TextAtEnd(src, r);
    if best.base != -1 && best.base + best.len == 8 {
      tp := PutChar(tmp, tp, ':');
    }
    assert tmp[..tp] == text;
    tp := PutChar(tmp, tp, NUL);
  }

  /** One item outside the run: a colon unless it is the first, and a word, or the embedded address, the last item. */
  method FormatWord(src: seq<Octet>, words: seq<nat>, best: Run, tmp: array<char>, start: nat, i: nat,
                    ghost text: string)
      returns (tp: nat, last: bool)
    requires |src| == 16 && words == Words(src) && tmp.Length == TMP_SIZE && i < 8 && |text| < TMP_SIZE
    requires best.base == BestRun(words).base && (best.base != -1 ==> best == BestRun(words))
    requires !BestRun(words).Holds(i) && start <= |text| && tmp[..start] + TextFrom(src, BestRun(words), i) == text
    modifies tmp
    ensures tp <= |text| && (last <==> i == 6 && Embeds(words, BestRun(words)))
    ensures tmp[..tp] + (if last then "" else TextFrom(src, BestRun(words), i + 1)) == text
  {
    hide TextFrom, BestRun, Hex, Dotted, Words, Colon;
    ghost var r := BestRun(words);
    ghost var tail := if i == 6 && Embeds(words, r) then Dotted(src[12..]) else Hex(words[i]) + TextFrom(src, r, i + 1);
    WordOrTail(src, r, i);
    tp := start;
    Move(tmp[..tp], Colon(i), tail, text);
    ColonOne(i);
    if i != 0 {
      tp := PutChar(tmp, tp, ':');
    }
    assert tmp[..tp] + tail == text;
    last := i == 6 && best.base == 0 && (best.len == 6 || (best.len == 5 && words[5] == 0xffff));
    if last {
      var copy := Ntop4(src[12..], tmp, tp, TMP_SIZE - tp);
      assert copy == Copied;
      tp := tp + |Dotted(src[12..])|;
    } else {
      tp := PutWord(tmp, tp, Hex(words[i]), TextFrom(src, r, i + 1), text);
    }
  }

  /** tp += sprintf (tp, "%x", words[i]); */
  method PutWord(tmp: array<char>, start: nat, word: string, ghost rest: string, ghost text: string) returns (tp: nat)
    requires start <= tmp.Length && |text| < tmp.Length && tmp[..start] + (word + rest) == text
    modifies tmp
    ensures tp <= |text| && tmp[..tp] + rest == text
  {
    ghost var written := tmp[..start];
    Move(written, word, rest, text);
    Put(tmp, start, word);
    tp := start + |word|;
    assert tmp[..tp] == written + word;
  }

  lemma WordOrTail(src: seq<Octet>, r: Run, i: nat)
    requires |src| == 16 && i < 8 && !r.Holds(i)
    ensures TextFrom(src, r, i)
         == Colon(i) + if i == 6 && Embeds(Words(src), r) then Dotted(src[12..])
                       else Hex(Words(src)[i]) + TextFrom(src, r, i + 1)
  {
    hide TextFrom, Colon, Words;
    if i == 6 && Embeds(Words(src), r) {
      TextOfTail(src, r);
    } else {
      TextOfWord(src, r, i);
    }
  }
}
