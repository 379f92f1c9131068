/** The two string operations of the summariser: Go's `strings.Split(s, "\n")`,
    whose piece count is the line count of a chunk, and
    `strings.Replace(s, "\n", "", -1)`, which flattens a commit message. */
module Text {

  /** Number of newline characters in `s`. */
  function NewlineCount(s: string): nat
  {
    if s == [] then 0 else (if s[0] == '\n' then 1 else 0) + NewlineCount(s[1..])
  }

  /** The pieces of `s` around each newline, as `strings.Split(s, "\n")` gives
      them: there is always at least one piece, so `""` yields `[""]`. */
  function Split(s: string): (pieces: seq<string>)
    ensures |pieces| >= 1
  {
    if s == [] then [[]]
    else if s[0] == '\n' then [[]] + Split(s[1..])
    else
      var rest := Split(s[1..]);
      [[s[0]] + rest[0]] + rest[1..]
  }

  /** `strings.Join(pieces, "\n")`. */
  function Join(pieces: seq<string>): string
  {
    if pieces == [] then []
    else if |pieces| == 1 then pieces[0]
    else pieces[0] + "\n" + Join(pieces[1..])
  }

  lemma {:induction false} NewlineCountAppend(a: string, b: string)
    ensures NewlineCount(a + b) == NewlineCount(a) + NewlineCount(b)
  {
    if a == [] {
      assert a + b == b;
    } else {
      assert (a + b)[1..] == a[1..] + b;
      NewlineCountAppend(a[1..], b);
    }
  }

  /** Splitting yields one piece more than there are newlines. */
  lemma {:induction false} SplitLength(s: string)
    ensures |Split(s)| == NewlineCount(s) + 1
  {
    if s != [] {
      SplitLength(s[1..]);
    }
  }

  /** No piece of a split holds a newline. */
  lemma {:induction false} SplitPiecesHaveNoNewline(s: string)
    ensures forall k :: 0 <= k < |Split(s)| ==> '\n' !in Split(s)[k]
  {
    if s != [] {
      SplitPiecesHaveNoNewline(s[1..]);
      var rest := Split(s[1..]);
      if s[0] != '\n' {
        assert '\n' !in rest[0];
        assert Split(s)[0] == [s[0]] + rest[0];
        forall k | 1 <= k < |Split(s)| ensures '\n' !in Split(s)[k] {
          assert Split(s)[k] == rest[k];
        }
      } else {
        forall k | 1 <= k < |Split(s)| ensures '\n' !in Split(s)[k] {
          assert Split(s)[k] == rest[k - 1];
        }
      }
    }
  }

  /** Prepending a character to the first piece prepends it to the join. */
  lemma JoinExtendFirst(c: char, rest: seq<string>)
    requires |rest| >= 1
    ensures Join([[c] + rest[0]] + rest[1..]) == [c] + Join(rest)
  {
    var pieces := [[c] + rest[0]] + rest[1..];
    if |rest| > 1 {
      assert pieces[1..] == rest[1..];
    }
  }

  /** Joining the pieces with newlines gives back the split string. */
  lemma {:induction false} JoinSplit(s: string)
    ensures Join(Split(s)) == s
  {
    if s != [] {
      JoinSplit(s[1..]);
      var rest := Split(s[1..]);
      if s[0] == '\n' {
        assert ([[]] + rest)[1..] == rest;
        assert s == "\n" + s[1..];
      } else {
        JoinExtendFirst(s[0], rest);
        assert s == [s[0]] + s[1..];
      }
    }
  }

  /** Split is the only way to cut `s` into newline-free pieces around newlines:
      any such cutting that joins back to `s` is `Split(s)`. */
  lemma {:induction false} SplitUnique(s: string, pieces: seq<string>)
    requires |pieces| >= 1
    requires forall k :: 0 <= k < |pieces| ==> '\n' !in pieces[k]
    requires Join(pieces) == s
    ensures pieces == Split(s)
    decreases |s|, |pieces[0]|
  {
    if |pieces| == 1 {
      if s != [] {
        assert s[0] != '\n' by { assert s[0] == pieces[0][0]; }
        var tail := [pieces[0][1..]];
        assert Join(tail) == s[1..];
        SplitUnique(s[1..], tail);
        assert pieces[0] == s == [s[0]] + tail[0];
        assert pieces == [[s[0]] + tail[0]] + tail[1..];
      }
    } else if pieces[0] == [] {
      assert s == "\n" + Join(pieces[1..]);
      assert s[1..] == Join(pieces[1..]);
      SplitUnique(s[1..], pieces[1..]);
      assert pieces == [[]] + pieces[1..];
    } else {
      var tail := [pieces[0][1..]] + pieces[1..];
      assert tail[1..] == pieces[1..];
      assert pieces[0] == [pieces[0][0]] + pieces[0][1..];
      assert s == [pieces[0][0]] + Join(tail);
      assert s[0] != '\n' by { assert s[0] == pieces[0][0]; }
      assert s[1..] == Join(tail);
      forall k | 0 <= k < |tail| ensures '\n' !in tail[k] {
        if k == 0 {
          assert forall x :: x in tail[0] ==> x in pieces[0];
        } else {
          assert tail[k] == pieces[k];
        }
      }
      SplitUnique(s[1..], tail);
      assert pieces == [[s[0]] + tail[0]] + tail[1..];
    }
  }

  /** `s` with every newline removed, all other characters kept in order. */
  function StripNewlines(s: string): (r: string)
    ensures '\n' !in r
    ensures |r| == |s| - NewlineCount(s)
  {
    if s == [] then []
    else (if s[0] == '\n' then [] else [s[0]]) + StripNewlines(s[1..])
  }

  /** Stripping works piecewise: the kept characters of `a` come first, in
      their order, followed by those of `b`. */
  lemma {:induction false} StripNewlinesAppend(a: string, b: string)
    ensures StripNewlines(a + b) == StripNewlines(a) + StripNewlines(b)
  {
    if a != [] {
      assert (a + b)[1..] == a[1..] + b;
      StripNewlinesAppend(a[1..], b);
    } else {
      assert a + b == b;
    }
  }

  /** A newline between two parts is dropped and the parts are joined as they are. */
  lemma StripDropsNewline(a: string, b: string)
    ensures StripNewlines(a + "\n" + b) == StripNewlines(a) + StripNewlines(b)
  {
    var nl: string := "\n";
    assert nl[0] == '\n' && nl[1..] == [];
    assert StripNewlines(nl) == [] + StripNewlines([]);
    StripNewlinesAppend(a + nl, b);
    StripNewlinesAppend(a, nl);
  }

  /** A string without newlines is left unchanged. */
  lemma {:induction false} StripWithoutNewline(s: string)
    requires '\n' !in s
    ensures StripNewlines(s) == s
  {
    if s != [] {
      assert '\n' !in s[1..] by { assert forall x :: x in s[1..] ==> x in s; }
      StripWithoutNewline(s[1..]);
      assert s == [s[0]] + s[1..];
    }
  }

  /** Normalising a message twice is the same as normalising it once. */
  lemma StripIdempotent(s: string)
    ensures StripNewlines(StripNewlines(s)) == StripNewlines(s)
  {
    StripWithoutNewline(StripNewlines(s));
  }

  /** Every character other than a newline occurs as often after stripping as before. */
  lemma {:induction false} StripKeepsOtherChars(s: string, c: char)
    requires c != '\n'
    ensures multiset(StripNewlines(s))[c] == multiset(s)[c]
  {
    if s != [] {
      StripKeepsOtherChars(s[1..], c);
      assert s == [s[0]] + s[1..];
      assert multiset(s) == multiset([s[0]]) + multiset(s[1..]);
    }
  }
}
