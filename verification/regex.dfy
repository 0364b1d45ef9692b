/**
 The fragment of JavaScript regular expressions that the sanitizer's
 trailing-whitespace rule uses: literal characters, a greedy `c+` that
 backtracks, and the end-of-input anchor `$` (no multiline flag), together
 with `String.prototype.replace` under the global flag.
 */
module Regex {
  import opened JsValues

  datatype Atom =
    | Lit(c: char)        // the character `c`
    | OneOrMore(c: char)  // `c+`, greedy, backtracking to shorter runs
    | EndOfInput          // `$` without the multiline flag

  /** Length of the run of `c` that starts at index `i` of `s`. */
  function RunLength(s: string, i: nat, c: char): (n: nat)
    requires i <= |s|
    ensures i + n <= |s|
    ensures forall k :: i <= k < i + n ==> s[k] == c
    ensures i + n < |s| ==> s[i + n] != c
    decreases |s| - i
  {
    if i < |s| && s[i] == c then 1 + RunLength(s, i + 1, c) else 0
  }

  /**
   The end of the first match of `pat` in `s` that starts at index `i`, in
   the order a backtracking matcher finds it; `None` when there is none.
   The anchor `$` is tested against the end of the whole of `s`.
   */
  function MatchAt(pat: seq<Atom>, s: string, i: nat): (r: Option<nat>)
    requires i <= |s|
    ensures r.Some? ==> i <= r.value <= |s|
    decreases |pat|, |s| + 1
  {
    if |pat| == 0 then Some(i)
    else match pat[0]
      case Lit(c) =>
        if i < |s| && s[i] == c then MatchAt(pat[1..], s, i + 1) else None
      case EndOfInput =>
        if i == |s| then MatchAt(pat[1..], s, i) else None
      case OneOrMore(c) =>
        if i < |s| && s[i] == c then TryRunEnds(pat[1..], s, i, i + RunLength(s, i, c)) else None
  }

  /**
   Tries the rest of a pattern after a `c+` that began at `start`, first with
   the run ending at `j`, then with ever shorter runs (at least one character).
   */
  function TryRunEnds(rest: seq<Atom>, s: string, start: nat, j: nat): (r: Option<nat>)
    requires start < j <= |s|
    ensures r.Some? ==> start < r.value <= |s|
    decreases |rest| + 1, j
  {
    match MatchAt(rest, s, j)
    case Some(k) => Some(k)
    case None => if j > start + 1 then TryRunEnds(rest, s, start, j - 1) else None
  }

  /**
   `s.replace(new RegExp(pat, 'g'), rep)` on the part of `s` from index `i`:
   every match, leftmost first, is replaced by `rep`; scanning resumes after
   a non-empty match and one character further after an empty one.  A
   pattern that matches at no index leaves the text as it is, and replacing
   by nothing never lengthens it.
   */
  function ReplaceMatches(pat: seq<Atom>, s: string, i: nat, rep: string): (r: string)
    requires i <= |s|
    ensures (forall k :: i <= k <= |s| ==> MatchAt(pat, s, k).None?) ==> r == s[i..]
    ensures rep == "" ==> |r| <= |s| - i
    decreases |s| - i, if i < |s| then 1 else 0
  {
    match MatchAt(pat, s, i)
    case Some(k) =>
      if k > i then rep + ReplaceMatches(pat, s, k, rep)
      else if i < |s| then rep + [s[i]] + ReplaceMatches(pat, s, i + 1, rep)
      else rep
    case None =>
      if i < |s| then
        assert s[i..] == [s[i]] + s[i + 1..];
        [s[i]] + ReplaceMatches(pat, s, i + 1, rep)
      else ""
  }
}
