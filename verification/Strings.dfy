/** Cutting strings at a separator, and joining the pieces. */
module Strings {

  predicate Lacks(s: string, c: char) {
    c !in s
  }

  /** The pieces between the separators; there is always at least one. */
  function Split(s: string, c: char): (pieces: seq<string>)
    ensures |pieces| >= 1
    decreases |s|
  {
    if s == "" then [""]
    else if s[0] == c then [""] + Split(s[1..], c)
    else
      var rest := Split(s[1..], c);
      [[s[0]] + rest[0]] + rest[1..]
  }

  /** The pieces with a separator between any two. */
  function Join(pieces: seq<string>, c: char): string {
    if pieces == [] then ""
    else if |pieces| == 1 then pieces[0]
    else pieces[0] + [c] + Join(pieces[1..], c)
  }

  lemma {:induction false} SplitWhole(s: string, c: char)
    requires Lacks(s, c)
    ensures Split(s, c) == [s]
    decreases |s|
  {
    if s != "" {
      SplitWhole(s[1..], c);
      assert s == [s[0]] + s[1..];
    }
  }

  /** Cutting at one separator cuts the rest independently. */
  lemma {:induction false} SplitAt(s: string, c: char, t: string)
    requires Lacks(s, c)
    ensures Split(s + [c] + t, c) == [s] + Split(t, c)
    decreases |s|
  {
    var u := s + [c] + t;
    if s == "" {
      assert u[0] == c && u[1..] == t;
    } else {
      assert u[0] == s[0] && u[1..] == s[1..] + [c] + t;
      SplitAt(s[1..], c, t);
      assert s == [s[0]] + s[1..];
    }
  }

  predicate AllLack(pieces: seq<string>, c: char) {
    forall i :: 0 <= i < |pieces| ==> Lacks(pieces[i], c)
  }

  /** Pieces without the separator are recovered from their join. */
  lemma {:induction false} SplitOfJoin(pieces: seq<string>, c: char)
    requires pieces != [] && AllLack(pieces, c)
    ensures Split(Join(pieces, c), c) == pieces
    decreases |pieces|
  {
    if |pieces| == 1 {
      SplitWhole(pieces[0], c);
    } else {
      SplitOfJoin(pieces[1..], c);
      SplitAt(pieces[0], c, Join(pieces[1..], c));
    }
  }

  /** Every string is the join of its pieces. */
  lemma {:induction false} JoinOfSplit(s: string, c: char)
    ensures Join(Split(s, c), c) == s && AllLack(Split(s, c), c)
    decreases |s|
  {
    if s != "" {
      JoinOfSplit(s[1..], c);
      var rest := Split(s[1..], c);
      if s[0] == c {
        assert Split(s, c)[1..] == rest;
      } else {
        var whole := Split(s, c);
        assert whole[1..] == rest[1..];
        if |rest| > 1 {
          assert Join(whole, c) == [s[0]] + (rest[0] + [c] + Join(rest[1..], c));
        }
      }
    }
  }

  lemma {:induction false} JoinAppend(a: seq<string>, b: seq<string>, c: char)
    requires a != [] && b != []
    ensures Join(a + b, c) == Join(a, c) + [c] + Join(b, c)
    decreases |a|
  {
    if |a| == 1 {
      assert (a + b)[1..] == b;
    } else {
      assert (a + b)[0] == a[0] && (a + b)[1..] == a[1..] + b;
      JoinAppend(a[1..], b, c);
      assert a[0] + [c] + (Join(a[1..], c) + [c] + Join(b, c)) == a[0] + [c] + Join(a[1..], c) + [c] + Join(b, c);
    }
  }
}
