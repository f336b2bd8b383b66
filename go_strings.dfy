/**
  The two functions of Go's `strings` package that fzf-log relies on, for a
  one-character separator: `strings.Split` and `strings.Join`.
 */
module GoStrings {

  /** `strings.Split(s, string(c))`: the pieces of `s` between occurrences of `c`.
      The empty string splits into one empty piece; consecutive separators give
      empty pieces. */
  function Split(s: string, c: char): (parts: seq<string>)
    ensures |parts| >= 1
    ensures forall k :: 0 <= k < |parts| ==> c !in parts[k]
    ensures |parts| == 1 ==> parts[0] == s
  {
    if s == [] then [[]]
    else if s[0] == c then [[]] + Split(s[1..], c)
    else
      var rest := Split(s[1..], c);
      [[s[0]] + rest[0]] + rest[1..]
  }

  /** `strings.Join(parts, sep)`: the pieces with `sep` between neighbours. */
  function Join(parts: seq<string>, sep: string): (s: string)
    ensures |parts| == 0 ==> s == []
    ensures |parts| >= 1 ==> parts[0] <= s
    ensures |parts| >= 2 ==> parts[0] + sep <= s
  {
    if |parts| == 0 then []
    else if |parts| == 1 then parts[0]
    else parts[0] + sep + Join(parts[1..], sep)
  }

  /** Joining the pieces of a split with the same separator gives back the string. */
  lemma {:induction false} JoinSplit(s: string, c: char)
    ensures Join(Split(s, c), [c]) == s
  {
    if s == [] {
    } else if s[0] == c {
      JoinSplit(s[1..], c);
      assert s == [c] + s[1..];
    } else {
      var rest := Split(s[1..], c);
      JoinSplit(s[1..], c);
      if |rest| == 1 {
        assert s == [s[0]] + s[1..];
      } else {
        assert Join(rest, [c]) == rest[0] + [c] + Join(rest[1..], [c]);
        assert s == [s[0]] + s[1..];
      }
    }
  }

  /** A string without the separator is a single piece. */
  lemma {:induction false} SplitWithoutSeparator(s: string, c: char)
    requires c !in s
    ensures Split(s, c) == [s]
  {
    if s != [] {
      SplitWithoutSeparator(s[1..], c);
    }
  }

  /** Splitting `p + c + t`, where `p` has no `c`, yields `p` followed by the pieces of `t`. */
  lemma {:induction false} SplitAfterPiece(p: string, c: char, t: string)
    requires c !in p
    ensures Split(p + [c] + t, c) == [p] + Split(t, c)
  {
    if p == [] {
      assert p + [c] + t == [c] + t;
    } else {
      var s := p + [c] + t;
      SplitAfterPiece(p[1..], c, t);
      assert s[0] == p[0] && s[1..] == p[1..] + [c] + t;
      var rest := Split(s[1..], c);
      assert rest[0] == p[1..] && rest[1..] == Split(t, c);
      assert [p[0]] + p[1..] == p;
    }
  }

  /** Splitting the join of separator-free pieces, a separator and `t`, yields the pieces and then those of `t`. */
  lemma {:induction false} SplitAfterPieces(pieces: seq<string>, c: char, t: string)
    requires |pieces| >= 1
    requires forall k :: 0 <= k < |pieces| ==> c !in pieces[k]
    ensures Split(Join(pieces, [c]) + [c] + t, c) == pieces + Split(t, c)
  {
    if |pieces| == 1 {
      SplitAfterPiece(pieces[0], c, t);
    } else {
      var tail := Join(pieces[1..], [c]) + [c] + t;
      SplitAfterPieces(pieces[1..], c, t);
      SplitAfterPiece(pieces[0], c, tail);
      JoinFirst(pieces, [c], t);
      PrependPiece(pieces, Split(tail, c), Split(t, c));
    }
  }

  /** Joining at least two pieces and appending `sep + t` is the first piece, `sep`, and the rest likewise. */
  lemma JoinFirst(pieces: seq<string>, sep: string, t: string)
    requires |pieces| >= 2
    ensures Join(pieces, sep) + sep + t == pieces[0] + sep + (Join(pieces[1..], sep) + sep + t)
  {
  }

  lemma PrependPiece(pieces: seq<string>, tailParts: seq<string>, tParts: seq<string>)
    requires |pieces| >= 1
    requires tailParts == pieces[1..] + tParts
    ensures [pieces[0]] + tailParts == pieces + tParts
  {
    assert pieces == [pieces[0]] + pieces[1..];
  }

  /** Pieces free of the separator survive a join followed by a split. */
  lemma {:induction false} SplitJoin(parts: seq<string>, c: char)
    requires |parts| >= 1
    requires forall k :: 0 <= k < |parts| ==> c !in parts[k]
    ensures Split(Join(parts, [c]), c) == parts
  {
    if |parts| == 1 {
      SplitWithoutSeparator(parts[0], c);
    } else {
      SplitJoin(parts[1..], c);
      SplitAfterPiece(parts[0], c, Join(parts[1..], [c]));
      assert parts == [parts[0]] + parts[1..];
    }
  }

  /** Joining two non-empty lists of pieces puts one separator between their joins. */
  lemma {:induction false} JoinAppend(a: seq<string>, b: seq<string>, sep: string)
    requires |a| >= 1 && |b| >= 1
    ensures Join(a + b, sep) == Join(a, sep) + sep + Join(b, sep)
  {
    if |a| == 1 {
      assert (a + b)[1..] == b;
    } else {
      JoinAppend(a[1..], b, sep);
      assert (a + b)[1..] == a[1..] + b;
    }
  }
}
