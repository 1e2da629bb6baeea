/**
 * JavaScript's `String.prototype.split` with a one-character separator, and
 * its inverse `Array.prototype.join`.
 */
module Text {

  /** The pieces of `s` between occurrences of `sep`, in order. Like `split`,
      an input without the separator (the empty string included) is one piece,
      and a separator at either end yields an empty piece there. */
  function Split(s: string, sep: char): (pieces: seq<string>)
    ensures |pieces| >= 1
    ensures forall i :: 0 <= i < |pieces| ==> sep !in pieces[i]
  {
    if s == [] then [""]
    else if s[0] == sep then [""] + Split(s[1..], sep)
    else
      var rest := Split(s[1..], sep);
      [[s[0]] + rest[0]] + rest[1..]
  }

  /** The pieces glued back together with `sep` between neighbours. */
  function Join(pieces: seq<string>, sep: char): string
    requires |pieces| >= 1
  {
    if |pieces| == 1 then pieces[0] else pieces[0] + [sep] + Join(pieces[1..], sep)
  }

  /** Splitting loses nothing: joining the pieces gives the input back. */
  lemma {:induction false} JoinSplit(s: string, sep: char)
    ensures Join(Split(s, sep), sep) == s
  {
    if s == [] {
    } else if s[0] == sep {
      JoinSplit(s[1..], sep);
      assert s == [sep] + s[1..];
    } else {
      var rest := Split(s[1..], sep);
      JoinSplit(s[1..], sep);
      if |rest| == 1 {
        assert s == [s[0]] + s[1..];
      } else {
        assert Join(rest, sep) == rest[0] + [sep] + Join(rest[1..], sep);
        var pieces := Split(s, sep);
        assert pieces[1..] == rest[1..];
        assert s == [s[0]] + s[1..];
      }
    }
  }

  /** A text without the separator is a single piece. */
  lemma {:induction false} SplitWithoutSeparator(s: string, sep: char)
    requires sep !in s
    ensures Split(s, sep) == [s]
  {
    if s != [] {
      SplitWithoutSeparator(s[1..], sep);
      assert s == [s[0]] + s[1..];
    }
  }

  /** Splitting distributes over one occurrence of the separator: the pieces of
      `a + sep + b` are the pieces of `a` followed by the pieces of `b`. */
  lemma {:induction false} SplitAround(a: string, b: string, sep: char)
    ensures Split(a + [sep] + b, sep) == Split(a, sep) + Split(b, sep)
  {
    if a == [] {
      assert [sep] + b == a + [sep] + b;
      assert ([sep] + b)[1..] == b;
    } else {
      var s := a + [sep] + b;
      assert s[1..] == a[1..] + [sep] + b;
      SplitAround(a[1..], b, sep);
      if a[0] != sep {
        var rest := Split(a[1..], sep);
        assert Split(s[1..], sep) == rest + Split(b, sep);
      }
    }
  }

  /** Splitting the joined pieces gives the pieces back, when no piece holds
      the separator. */
  lemma {:induction false} SplitJoin(pieces: seq<string>, sep: char)
    requires |pieces| >= 1
    requires forall i :: 0 <= i < |pieces| ==> sep !in pieces[i]
    ensures Split(Join(pieces, sep), sep) == pieces
  {
    SplitWithoutSeparator(pieces[0], sep);
    if |pieces| > 1 {
      SplitJoin(pieces[1..], sep);
      SplitAround(pieces[0], Join(pieces[1..], sep), sep);
      assert pieces == [pieces[0]] + pieces[1..];
    }
  }
}
