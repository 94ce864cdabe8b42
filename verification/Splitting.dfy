/** Splitting a string at a separator, and joining the pieces again.
    Paths are split at '/', PATH at ':' and command lines at ' '. */
module Splitting {
  import opened Buffers

  /** The pieces of `s` between consecutive separators; "" has one piece, itself. */
  function Split(s: string, sep: char): (pieces: seq<string>)
    ensures |pieces| > 0
  {
    if s == "" then [""]
    else
      var init := Split(s[..|s| - 1], sep);
      var c := s[|s| - 1];
      if c == sep then init + [""] else Front(init) + [Last(init) + [c]]
  }

  function Last<T>(s: seq<T>): T
    requires |s| > 0
  {
    s[|s| - 1]
  }

  function Front<T>(s: seq<T>): seq<T>
    requires |s| > 0
  {
    s[..|s| - 1]
  }

  function Join(pieces: seq<string>, sep: char): string
    requires |pieces| > 0
  {
    if |pieces| == 1 then pieces[0]
    else Join(Front(pieces), sep) + [sep] + Last(pieces)
  }

  lemma {:induction false} SplitSnoc(s: string, c: char, sep: char)
    ensures Split(s + [c], sep) ==
            if c == sep then Split(s, sep) + [""]
            else Front(Split(s, sep)) + [Last(Split(s, sep)) + [c]]
  {
    assert (s + [c])[..|s|] == s;
  }

  lemma JoinSnoc(pieces: seq<string>, piece: string, sep: char)
    requires |pieces| > 0
    ensures Join(pieces + [piece], sep) == Join(pieces, sep) + [sep] + piece
  {
    assert Front(pieces + [piece]) == pieces;
  }

  lemma {:induction false} JoinConcat(a: seq<string>, b: seq<string>, sep: char)
    requires |a| > 0 && |b| > 0
    ensures Join(a + b, sep) == Join(a, sep) + [sep] + Join(b, sep)
  {
    if |b| == 1 {
      JoinSnoc(a, b[0], sep);
      assert b == [b[0]];
    } else {
      JoinConcat(a, Front(b), sep);
      FrontLast(a, b);
    }
  }

  lemma JoinExtend(pieces: seq<string>, c: char, sep: char)
    requires |pieces| > 0
    ensures Join(Front(pieces) + [Last(pieces) + [c]], sep) == Join(pieces, sep) + [c]
  {
    var longer := Front(pieces) + [Last(pieces) + [c]];
    assert Front(longer) == Front(pieces);
    if |pieces| > 1 {
      assert Join(pieces, sep) == Join(Front(pieces), sep) + [sep] + Last(pieces);
      assert Join(longer, sep) == Join(Front(pieces), sep) + [sep] + (Last(pieces) + [c]);
      assert Join(Front(pieces), sep) + [sep] + (Last(pieces) + [c]) == Join(pieces, sep) + [c];
    }
  }

  /** Join inverts Split. */
  lemma {:induction false} JoinSplit(s: string, sep: char)
    ensures Join(Split(s, sep), sep) == s
  {
    if s != "" {
      var t, c := Front(s), Last(s);
      JoinSplit(t, sep);
      assert s == t + [c];
      SplitSnoc(t, c, sep);
      if c == sep {
        JoinSnoc(Split(t, sep), "", sep);
        assert Join(Split(s, sep), sep) == t + [sep] + "";
      } else {
        JoinExtend(Split(t, sep), c, sep);
      }
    }
  }

  /** No piece contains the separator. */
  lemma {:induction false} PiecesClean(s: string, sep: char)
    ensures forall k :: 0 <= k < |Split(s, sep)| ==> sep !in Split(s, sep)[k]
  {
    if s != "" {
      PiecesClean(Front(s), sep);
    }
  }

  /** A string without the separator is a single piece. */
  lemma {:induction false} SplitWhole(s: string, sep: char)
    requires sep !in s
    ensures Split(s, sep) == [s]
  {
    if s != "" {
      assert s == Front(s) + [Last(s)];
      SplitWhole(Front(s), sep);
      SplitSnoc(Front(s), Last(s), sep);
      assert Last(s) in s;
    }
  }

  /** A separator cuts a string into independently split halves. */
  lemma {:induction false} SplitConcat(a: string, b: string, sep: char)
    ensures Split(a + [sep] + b, sep) == Split(a, sep) + Split(b, sep)
  {
    if b == "" {
      SplitSnoc(a, sep, sep);
      assert a + [sep] + b == a + [sep];
    } else {
      var t, c := Front(b), Last(b);
      SplitConcat(a, t, sep);
      assert a + [sep] + b == (a + [sep] + t) + [c] && b == t + [c];
      hide *;
      SplitGrows(a + [sep] + t, t, c, sep, Split(a, sep));
    }
  }

  lemma SplitGrows(s: string, t: string, c: char, sep: char, before: seq<string>)
    requires Split(s, sep) == before + Split(t, sep)
    ensures Split(s + [c], sep) == before + Split(t + [c], sep)
  {
    SplitSnoc(s, c, sep);
    SplitSnoc(t, c, sep);
    FrontLast(before, Split(t, sep));
    hide *;
    if c == sep {
      Associate(before, Split(t, sep), [""]);
    } else {
      Associate(before, Front(Split(t, sep)), [Last(Split(t, sep)) + [c]]);
    }
  }

  lemma FrontLast<T>(a: seq<T>, b: seq<T>)
    requires |b| > 0
    ensures Front(a + b) == a + Front(b) && Last(a + b) == Last(b)
  {
  }

  /** The finished pieces of a prefix are finished pieces of the whole. */
  lemma {:induction false} SplitPrefix(s: string, i: nat, sep: char)
    requires i <= |s|
    ensures Front(Split(s[..i], sep)) <= Front(Split(s, sep))
    decreases |s| - i
  {
    if i == |s| {
      assert s[..i] == s;
    } else {
      assert s[..i + 1] == s[..i] + [s[i]];
      SplitSnoc(s[..i], s[i], sep);
      SplitPrefix(s, i + 1, sep);
    }
  }
}
