/**
 String primitives with JavaScript semantics: a literal global replace
 (`s.replace(/lit/g, rep)`), occurrence of a substring, and `split` on a
 one-character separator together with its inverse `join`.
 */
module Strings {

  /** `p` occurs as a contiguous block somewhere in `s`. */
  predicate Occurs(p: string, s: string)
    decreases |s|
  {
    p <= s || (|s| > 0 && Occurs(p, s[1..]))
  }

  /**
   Replaces every occurrence of the literal `pat` in `s` by `rep`, scanning
   left to right and resuming after each replaced occurrence, as a global
   regular expression without special characters does.
   */
  function ReplaceAll(s: string, pat: string, rep: string): (r: string)
    requires |pat| > 0
    ensures !Occurs(pat, s) ==> r == s
    ensures pat == rep ==> r == s
    decreases |s|
  {
    if |s| == 0 then s
    else if pat <= s then rep + ReplaceAll(s[|pat|..], pat, rep)
    else [s[0]] + ReplaceAll(s[1..], pat, rep)
  }

  /**
   The stretches of `s` between the occurrences of `pat` that a left-to-right
   scan takes, resuming after each one: the text a global replace keeps.
   */
  function Pieces(s: string, pat: string): (parts: seq<string>)
    requires |pat| > 0
    ensures |parts| > 0 && parts[0] <= s
    ensures forall i :: 0 <= i < |parts| ==> !Occurs(pat, parts[i])
    decreases |s|
  {
    if |s| == 0 then [""]
    else if pat <= s then [""] + Pieces(s[|pat|..], pat)
    else
      var rest := Pieces(s[1..], pat);
      assert [s[0]] + rest[0] <= s by {
        assert s == [s[0]] + s[1..];
      }
      [[s[0]] + rest[0]] + rest[1..]
  }

  /** `parts.join(sep)` for a separator of any length. */
  function JoinWith(parts: seq<string>, sep: string): string
    decreases |parts|
  {
    if |parts| == 0 then ""
    else if |parts| == 1 then parts[0]
    else parts[0] + sep + JoinWith(parts[1..], sep)
  }

  /** The number of occurrences a global replace rewrites. */
  function Count(s: string, pat: string): nat
    requires |pat| > 0
  {
    |Pieces(s, pat)| - 1
  }

  /** The total length of some pieces. */
  function TotalLength(parts: seq<string>): nat
    decreases |parts|
  {
    if |parts| == 0 then 0 else |parts[0]| + TotalLength(parts[1..])
  }

  /** Extending the first piece by one character extends the join by it. */
  lemma JoinWithConsHead(ch: char, parts: seq<string>, sep: string)
    requires |parts| > 0
    ensures JoinWith([[ch] + parts[0]] + parts[1..], sep) == [ch] + JoinWith(parts, sep)
  {
    var q := [[ch] + parts[0]] + parts[1..];
    assert q[1..] == parts[1..];
  }

  /** A join's length: the pieces plus one separator between each two. */
  lemma {:induction false} JoinWithLength(parts: seq<string>, sep: string)
    requires |parts| > 0
    ensures |JoinWith(parts, sep)| == TotalLength(parts) + (|parts| - 1) * |sep|
    decreases |parts|
  {
    if |parts| > 1 {
      JoinWithLength(parts[1..], sep);
      assert (|parts| - 1) * |sep| == (|parts| - 2) * |sep| + |sep|;
    }
  }

  /**
   The reference reading of a global replace: cut the text at the
   occurrences the scan takes, and join the pieces with the replacement.
   */
  lemma {:induction false} ReplaceAllJoinsPieces(s: string, pat: string, rep: string)
    requires |pat| > 0
    ensures ReplaceAll(s, pat, rep) == JoinWith(Pieces(s, pat), rep)
    decreases |s|
  {
    if |s| > 0 {
      if pat <= s {
        ReplaceAllJoinsPieces(s[|pat|..], pat, rep);
        var rest := Pieces(s[|pat|..], pat);
        assert ([""] + rest)[1..] == rest;
      } else {
        ReplaceAllJoinsPieces(s[1..], pat, rep);
        JoinWithConsHead(s[0], Pieces(s[1..], pat), rep);
      }
    }
  }

  /** Joining the pieces with the pattern itself gives the text back. */
  lemma PiecesJoinToText(s: string, pat: string)
    requires |pat| > 0
    ensures JoinWith(Pieces(s, pat), pat) == s
  {
    ReplaceAllJoinsPieces(s, pat, pat);
  }

  /** A text shorter than the pattern cannot hold it. */
  lemma {:induction false} NoOccurShort(p: string, t: string)
    requires |t| < |p|
    ensures !Occurs(p, t)
    decreases |t|
  {
    if |t| > 0 {
      NoOccurShort(p, t[1..]);
    }
  }

  /** When the scan cuts the text, the text opens with the first piece and then the pattern. */
  lemma {:induction false} PiecesHeadThenPattern(s: string, pat: string)
    requires |pat| > 0
    ensures |Pieces(s, pat)| >= 2 ==> Pieces(s, pat)[0] + pat <= s
    decreases |s|
  {
    if |s| > 0 {
      if pat <= s {
        assert Pieces(s, pat)[0] + pat == pat;
      } else {
        PiecesHeadThenPattern(s[1..], pat);
        var rest := Pieces(s[1..], pat);
        if |rest| >= 2 {
          assert s == [s[0]] + s[1..];
          assert Pieces(s, pat)[0] + pat == [s[0]] + (rest[0] + pat);
        }
      }
    }
  }

  /**
   The scan takes the leftmost occurrence: no occurrence of the pattern
   starts inside a piece that a cut ends, not even one that would run into
   the occurrence the scan took.
   */
  lemma {:induction false} PiecesLeftmost(s: string, pat: string)
    requires |pat| > 0
    ensures forall i :: 0 <= i < |Pieces(s, pat)| - 1 ==> !Occurs(pat, Pieces(s, pat)[i] + pat[..|pat| - 1])
    decreases |s|
  {
    if |s| > 0 {
      var parts := Pieces(s, pat);
      if pat <= s {
        var after := Pieces(s[|pat|..], pat);
        PiecesLeftmost(s[|pat|..], pat);
        NoOccurShort(pat, parts[0] + pat[..|pat| - 1]);
        forall i | 0 < i < |parts| - 1
          ensures !Occurs(pat, parts[i] + pat[..|pat| - 1])
        {
          assert parts[i] == after[i - 1];
        }
      } else {
        var rest := Pieces(s[1..], pat);
        PiecesLeftmost(s[1..], pat);
        if |rest| >= 2 {
          PiecesHeadThenPattern(s[1..], pat);
          var w := parts[0] + pat[..|pat| - 1];
          assert w == [s[0]] + (rest[0] + pat[..|pat| - 1]);
          assert s == [s[0]] + s[1..];
          assert w <= s;
          assert w[1..] == rest[0] + pat[..|pat| - 1];
        }
        forall i | 0 < i < |parts| - 1
          ensures !Occurs(pat, parts[i] + pat[..|pat| - 1])
        {
          assert parts[i] == rest[i];
        }
      }
    }
  }

  /**
   A global replace changes the length by the difference of pattern and
   replacement once for every occurrence it rewrites.
   */
  lemma ReplaceAllLength(s: string, pat: string, rep: string)
    requires |pat| > 0
    ensures |ReplaceAll(s, pat, rep)| + Count(s, pat) * |pat| == |s| + Count(s, pat) * |rep|
  {
    var parts := Pieces(s, pat);
    ReplaceAllJoinsPieces(s, pat, rep);
    PiecesJoinToText(s, pat);
    JoinWithLength(parts, rep);
    JoinWithLength(parts, pat);
  }

  /** The first character of a replacement pass. */
  lemma ReplaceHead(s: string, pat: string, rep: string)
    requires |pat| > 0 && |rep| > 0 && |s| > 0
    ensures |ReplaceAll(s, pat, rep)| > 0
    ensures ReplaceAll(s, pat, rep)[0] == if pat <= s then rep[0] else s[0]
  {
  }

  /**
   A prefix of the output that never uses the replacement's first character
   was already a prefix of the input: the pass cannot have produced it.
   */
  lemma {:induction false} PrefixSurvives(s: string, pat: string, rep: string, w: string)
    requires |pat| > 0 && |rep| > 0
    requires forall j :: 0 <= j < |w| ==> w[j] != rep[0]
    requires w <= ReplaceAll(s, pat, rep)
    ensures w <= s
    decreases |w|
  {
    if |w| > 0 {
      assert |s| > 0;
      var r := ReplaceAll(s, pat, rep);
      assert w[0] == r[0];
      ReplaceHead(s, pat, rep);
      assert !(pat <= s);
      assert r ==[s[0]] + ReplaceAll(s[1..], pat, rep);
      assert w[1..] <= ReplaceAll(s[1..], pat, rep);
      PrefixSurvives(s[1..], pat, rep, w[1..]);
    }
  }

  /** An occurrence in `x + t` either starts inside `x` or lies within `t`. */
  lemma {:induction false} NoOccurrenceInConcat(p: string, x: string, t: string)
    requires forall i :: 0 <= i < |x| ==> !(p <= (x + t)[i..])
    requires !Occurs(p, t)
    ensures !Occurs(p, x + t)
    decreases |x|
  {
    if |x| == 0 {
      assert x + t == t;
    } else {
      assert (x + t)[0..] == x + t;
      assert (x + t)[1..] == x[1..] + t;
      forall i | 0 <= i < |x| - 1
        ensures !(p <= (x[1..] + t)[i..])
      {
        assert (x[1..] + t)[i..] == (x + t)[i + 1..];
      }
      NoOccurrenceInConcat(p, x[1..], t);
    }
  }

  /** Whether `p` starts at index `i < |x|` of `x + t`, one character at a time. */
  lemma PrefixAtIndex(p: string, x: string, t: string, i: nat)
    requires i < |x| && |p| > 0
    ensures (p <= (x + t)[i..]) <==> (p[0] == x[i] && p[1..] <= (x + t)[i + 1..])
    ensures i + 1 == |x| ==> (x + t)[i + 1..] == t
  {
    assert (x + t)[i..][0] == x[i];
    assert (x + t)[i..][1..] == (x + t)[i + 1..];
  }

  /** A replacement pass over text that starts with the pattern. */
  lemma ReplaceAtMatch(pat: string, y: string, rep: string)
    requires |pat| > 0
    ensures ReplaceAll(pat + y, pat, rep) == rep + ReplaceAll(y, pat, rep)
  {
    assert (pat + y)[|pat|..] == y;
  }

  /** A replacement pass over text whose first character does not start a match. */
  lemma ReplaceAtMismatch(ch: char, y: string, pat: string, rep: string)
    requires |pat| > 0 && !(pat <= [ch] + y)
    ensures ReplaceAll([ch] + y, pat, rep) == [ch] + ReplaceAll(y, pat, rep)
  {
    assert ([ch] + y)[1..] == y;
  }

  /** A character that cannot start the pattern is copied through. */
  lemma ReplaceAfterOther(ch: char, y: string, pat: string, rep: string)
    requires |pat| > 0 && ch != pat[0]
    ensures ReplaceAll([ch] + y, pat, rep) == [ch] + ReplaceAll(y, pat, rep)
  {
    ReplaceAtMismatch(ch, y, pat, rep);
  }

  /** A single occurrence between unmatched text and text without the pattern is replaced. */
  lemma ReplaceAroundMatch(h: string, pat: string, t: string, rep: string)
    requires |pat| > 0
    requires forall i :: 0 <= i < |h| ==> !(pat <= (h + (pat + t))[i..])
    requires !Occurs(pat, t)
    ensures ReplaceAll(h + pat + t, pat, rep) == h + rep + t
  {
    ReplaceSkipsUnmatched(h, pat + t, pat, rep);
    ReplaceAtMatch(pat, t, rep);
    assert h + pat + t == h + (pat + t);
  }

  /** A stretch without the pattern's first character is copied through unchanged. */
  lemma {:induction false} ReplaceSkipsClean(x: string, y: string, pat: string, rep: string)
    requires |pat| > 0 && pat[0] !in x
    ensures ReplaceAll(x + y, pat, rep) == x + ReplaceAll(y, pat, rep)
    decreases |x|
  {
    if |x| > 0 {
      assert (x + y)[0] == x[0];
      assert (x + y)[1..] == x[1..] + y;
      ReplaceSkipsClean(x[1..], y, pat, rep);
    } else {
      assert x + y == y;
    }
  }

  /** A stretch where no occurrence of the pattern starts is copied through unchanged. */
  lemma {:induction false} ReplaceSkipsUnmatched(x: string, y: string, pat: string, rep: string)
    requires |pat| > 0
    requires forall i :: 0 <= i < |x| ==> !(pat <= (x + y)[i..])
    ensures ReplaceAll(x + y, pat, rep) == x + ReplaceAll(y, pat, rep)
    decreases |x|
  {
    if |x| > 0 {
      assert (x + y)[0..] == x + y;
      assert (x + y)[1..] == x[1..] + y;
      forall i | 0 <= i < |x| - 1
        ensures !(pat <= (x[1..] + y)[i..])
      {
        assert (x[1..] + y)[i..] == (x + y)[i + 1..];
      }
      ReplaceSkipsUnmatched(x[1..], y, pat, rep);
    } else {
      assert x + y == y;
    }
  }

  /** A block containing a character that `s` lacks does not occur in `s`. */
  lemma {:induction false} MissingCharMeansAbsent(p: string, s: string, k: nat)
    requires k < |p| && p[k] !in s
    ensures !Occurs(p, s)
    decreases |s|
  {
    assert k < |s| ==> s[k] != p[k];
    if |s| > 0 {
      MissingCharMeansAbsent(p, s[1..], k);
    }
  }

  /** An occurrence in a suffix is an occurrence in the whole string. */
  lemma {:induction false} OccursInSuffix(p: string, s: string, k: nat)
    requires k <= |s|
    requires Occurs(p, s[k..])
    ensures Occurs(p, s)
    decreases k
  {
    if k == 0 {
      assert s[0..] == s;
    } else {
      assert s[1..][k - 1..] == s[k..];
      OccursInSuffix(p, s[1..], k - 1);
    }
  }

  /** A block found at position `k` is an occurrence. */
  lemma OccursAt(p: string, s: string, k: nat)
    requires k <= |s|
    requires p <= s[k..]
    ensures Occurs(p, s)
  {
    OccursInSuffix(p, s, k);
  }

  /** `s.split(sep)`: the pieces between consecutive separators. */
  function Split(s: string, sep: char): (parts: seq<string>)
    ensures |parts| > 0
    ensures forall i :: 0 <= i < |parts| ==> sep !in parts[i]
    ensures Join(parts, sep) == s
    decreases |s|
  {
    if |s| == 0 then [""]
    else if s[0] == sep then [""] + Split(s[1..], sep)
    else
      var rest := Split(s[1..], sep);
      [[s[0]] + rest[0]] + rest[1..]
  }

  /** `parts.join(sep)`. */
  function Join(parts: seq<string>, sep: char): string
    decreases |parts|
  {
    if |parts| == 0 then ""
    else if |parts| == 1 then parts[0]
    else parts[0] + [sep] + Join(parts[1..], sep)
  }

  /** A string without the separator is one piece. */
  lemma SplitWithoutSeparator(s: string, sep: char)
    requires sep !in s
    ensures Split(s, sep) == [s]
  {
    var parts := Split(s, sep);
    if |parts| > 1 {
      JoinContainsSeparator(parts, sep);
      assert false;
    }
  }

  /** Joined pieces start with the first piece. */
  lemma JoinStartsWithHead(parts: seq<string>, sep: char)
    requires |parts| > 0
    ensures parts[0] <= Join(parts, sep)
  {
  }

  /**
   The first two pieces of a split: there are two of them exactly when the
   separator occurs, and then the text opens with them joined by it.
   */
  lemma SplitHead(s: string, sep: char)
    ensures sep !in s ==> Split(s, sep) == [s]
    ensures |Split(s, sep)| >= 2 <==> sep in s
    ensures |Split(s, sep)| >= 2 ==> Split(s, sep)[0] + [sep] + Split(s, sep)[1] <= s
  {
    var parts := Split(s, sep);
    if sep !in s {
      SplitWithoutSeparator(s, sep);
    } else if |parts| >= 2 {
      JoinStartsWithHead(parts[1..], sep);
      assert Join(parts, sep) == parts[0] + [sep] + Join(parts[1..], sep);
    }
  }

  /** Joining two or more pieces puts the separator in the result. */
  lemma {:induction false} JoinContainsSeparator(parts: seq<string>, sep: char)
    requires |parts| > 1
    ensures sep in Join(parts, sep)
  {
    var j := Join(parts, sep);
    assert j == parts[0] + [sep] + Join(parts[1..], sep);
    assert j[|parts[0]|] == sep;
  }

  /** Splitting `a + sep + b` splits `a` and `b` independently. */
  lemma {:induction false} SplitAround(a: string, sep: char, b: string)
    ensures Split(a + [sep] + b, sep) == Split(a, sep) + Split(b, sep)
    decreases |a|
  {
    var s := a + [sep] + b;
    if |a| == 0 {
      assert s == [sep] + b;
      assert s[1..] == b;
    } else {
      assert s[0] == a[0];
      assert s[1..] == a[1..] + [sep] + b;
      SplitAround(a[1..], sep, b);
    }
  }
}
