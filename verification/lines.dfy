/** Splitting text into lines and the three ways the readers glue pieces
    of text together. */
module Lines {

  /** No piece of `parts` contains a newline. */
  predicate NoNewlines(parts: seq<string>) {
    forall m | 0 <= m < |parts| :: '\n' !in parts[m]
  }

  /** Python's `s.split('\n')`: the pieces between newlines, so that a text
      with `n` newlines has `n + 1` pieces and the empty text has one. */
  function Split(s: string): (parts: seq<string>)
    ensures |parts| >= 1
    ensures NoNewlines(parts)
    decreases |s|
  {
    if |s| == 0 then [""]
    else
      var rest := Split(s[1..]);
      if s[0] == '\n' then [""] + rest
      else [[s[0]] + rest[0]] + rest[1..]
  }

  /** Python's `'\n'.join(parts)`. */
  function JoinLines(parts: seq<string>): string
    decreases |parts|
  {
    if |parts| == 0 then ""
    else if |parts| == 1 then parts[0]
    else parts[0] + "\n" + JoinLines(parts[1..])
  }

  /** Every piece followed by a newline, in order: the text built by a loop
      of `text += piece + "\n"`. */
  function Terminated(parts: seq<string>): string
    decreases |parts|
  {
    if |parts| == 0 then "" else parts[0] + "\n" + Terminated(parts[1..])
  }

  /** The pieces glued together with no separator: the text built by a loop
      of `text += piece`. */
  function Concat(parts: seq<string>): string
    decreases |parts|
  {
    if |parts| == 0 then "" else parts[0] + Concat(parts[1..])
  }

  /** Joining the pieces of a split gives back the text. */
  lemma {:induction false} JoinSplit(s: string)
    ensures JoinLines(Split(s)) == s
    decreases |s|
  {
    if |s| > 0 {
      var rest := Split(s[1..]);
      JoinSplit(s[1..]);
      if s[0] == '\n' {
        assert Split(s) == [""] + rest;
        assert s == [s[0]] + s[1..];
      } else if |rest| == 1 {
        assert s == [s[0]] + s[1..];
      } else {
        assert Split(s)[1..] == rest[1..];
        assert s == [s[0]] + s[1..];
      }
    }
  }

  /** Splitting newline-free text prepended to a newline peels off one piece. */
  lemma {:induction false} SplitAfterPiece(a: string, b: string)
    requires '\n' !in a
    ensures Split(a + "\n" + b) == [a] + Split(b)
    decreases |a|
  {
    if |a| == 0 {
      assert a + "\n" + b == ['\n'] + b;
      assert (['\n'] + b)[1..] == b;
    } else {
      SplitAfterPiece(a[1..], b);
      assert (a + "\n" + b)[1..] == a[1..] + "\n" + b;
      assert [a[0]] + a[1..] == a;
    }
  }

  /** Newline-free text is a single piece. */
  lemma {:induction false} SplitSinglePiece(a: string)
    requires '\n' !in a
    ensures Split(a) == [a]
    decreases |a|
  {
    if |a| > 0 {
      SplitSinglePiece(a[1..]);
      assert [a[0]] + a[1..] == a;
    }
  }

  /** Splitting joined newline-free pieces gives the pieces back. */
  lemma {:induction false} SplitJoin(parts: seq<string>)
    requires |parts| >= 1
    requires NoNewlines(parts)
    ensures Split(JoinLines(parts)) == parts
    decreases |parts|
  {
    if |parts| == 1 {
      SplitSinglePiece(parts[0]);
    } else {
      SplitJoin(parts[1..]);
      assert '\n' !in parts[0];
      SplitAfterPiece(parts[0], JoinLines(parts[1..]));
    }
  }

  /** Newline-terminated pieces are the pieces joined with an extra empty
      last piece. */
  lemma {:induction false} TerminatedIsJoin(parts: seq<string>)
    ensures Terminated(parts) == JoinLines(parts + [""])
    decreases |parts|
  {
    if |parts| > 0 {
      TerminatedIsJoin(parts[1..]);
      assert (parts + [""])[1..] == parts[1..] + [""];
      if |parts| == 1 {
        assert JoinLines(parts[1..] + [""]) == "";
      }
    }
  }

  /** Splitting newline-terminated, newline-free pieces yields the pieces
      followed by one empty piece after the final newline. */
  lemma SplitTerminated(parts: seq<string>)
    requires NoNewlines(parts)
    ensures Split(Terminated(parts)) == parts + [""]
  {
    TerminatedIsJoin(parts);
    assert NoNewlines(parts + [""]) by {
      forall m | 0 <= m < |parts + [""]|
        ensures '\n' !in (parts + [""])[m]
      {
        if m < |parts| {
          assert (parts + [""])[m] == parts[m];
        }
      }
    }
    SplitJoin(parts + [""]);
  }

  /** The terminated text has one newline per piece on top of the pieces'
      own characters. */
  lemma {:induction false} TerminatedLength(parts: seq<string>)
    ensures |Terminated(parts)| == |Concat(parts)| + |parts|
    decreases |parts|
  {
    if |parts| > 0 {
      TerminatedLength(parts[1..]);
    }
  }

  /** Terminating a sequence of pieces in two halves is terminating the
      halves. */
  lemma {:induction false} TerminatedAppend(a: seq<string>, b: seq<string>)
    ensures Terminated(a + b) == Terminated(a) + Terminated(b)
    decreases |a|
  {
    if |a| == 0 {
      assert a + b == b;
    } else {
      TerminatedAppend(a[1..], b);
      assert (a + b)[1..] == a[1..] + b;
    }
  }

  /** Gluing a sequence of pieces with no separator in two halves is gluing
      the halves. */
  lemma {:induction false} ConcatAppend(a: seq<string>, b: seq<string>)
    ensures Concat(a + b) == Concat(a) + Concat(b)
    decreases |a|
  {
    if |a| == 0 {
      assert a + b == b;
    } else {
      ConcatAppend(a[1..], b);
      assert (a + b)[1..] == a[1..] + b;
    }
  }
}
