/**
 `sanitizeMarkdown` from the rich-text editor: a fixed pipeline of global
 replace passes that repairs artefacts of the HTML-to-Markdown conversion.
 */
module Sanitizer {
  import opened JsValues
  import opened Strings
  import opened Regex

  /** A task-list marker `[c]`: `[ ]` when open, `[x]` when done. */
  function Marker(c: char): string
  {
    ['[', c, ']']
  }

  /** The list-item form `- [c]` a marker is rewritten to. */
  function ListItem(c: char): string
  {
    "- " + Marker(c)
  }

  /** The two task states the sanitizer rewrites. */
  predicate TaskChar(c: char)
  {
    c == ' ' || c == 'x'
  }

  /** A task marker `[c]` starts at index `i` of `t`. */
  predicate MarkerAt(t: string, i: int, c: char)
  {
    0 <= i && i + 3 <= |t| && t[i] == '[' && t[i + 1] == c && t[i + 2] == ']'
  }

  /** The two characters right before index `i` of `t` are the bullet `- `. */
  predicate ListedAt(t: string, i: int)
  {
    2 <= i <= |t| && t[i - 2] == '-' && t[i - 1] == ' '
  }

  /** Every `[c]` in `t`, wherever it stands, has `- ` right before it. */
  predicate EveryMarkerListed(t: string, c: char)
  {
    forall i :: 0 <= i < |t| && MarkerAt(t, i, c) ==> ListedAt(t, i)
  }

  /**
   The trailing-whitespace rule as it is written: the JavaScript string
   `'\s+$/'` loses its backslash, so the expression is `s+$/`, one or more
   `s`, the end of input, and then a `/`.
   */
  const TrailingPattern: seq<Atom> := [OneOrMore('s'), EndOfInput, Lit('/')]

  /**
   Pass 1: drop the empty comments `<!-- -->` the converter emits: the result
   is the text with each comment found left to right cut out.
   */
  function RemoveComments(s: string): (r: string)
    ensures r == JoinWith(Pieces(s, "<!-- -->"), "")
    ensures |r| + 8 * Count(s, "<!-- -->") == |s|
    ensures !Occurs("<!-- -->", s) ==> r == s
  {
    ReplaceAllJoinsPieces(s, "<!-- -->", "");
    ReplaceAllLength(s, "<!-- -->", "");
    ReplaceAll(s, "<!-- -->", "")
  }

  /** Pass 2: the trailing-whitespace rule. */
  function StripTrailing(s: string): (r: string)
    ensures r == s
  {
    TrailingPassIsIdentity(s);
    ReplaceMatches(TrailingPattern, s, 0, "")
  }

  /**
   Pass 3: every `](` becomes `] (`: a space goes between each `]` and the
   `(` right after it, one character per link, and no `](` is left.
   */
  function SpaceLinks(s: string): (r: string)
    ensures r == SpacedLinks(s)
    ensures |r| == |s| + Count(s, "](")
    ensures !Occurs("](", r)
    ensures !Occurs("](", s) ==> r == s
  {
    SpaceLinksLeavesNoJoin(s);
    SpaceLinksMatchesReference(s);
    ReplaceAllLength(s, "](", "] (");
    ReplaceAll(s, "](", "] (")
  }

  /**
   Passes 4 and 5: every `[c]`, wherever it stands, becomes `- [c]`. Hence
   every `[c]` of the result has `- ` before it, the result neither starts
   with a bare `[c]` nor has one after a newline, and the pass never creates
   a `](`.
   */
  function ListTasks(s: string, c: char): (r: string)
    requires TaskChar(c)
    ensures r == ListedMarkers(s, c)
    ensures |r| == |s| + 2 * Count(s, Marker(c))
    ensures EveryMarkerListed(r, c)
    ensures !(Marker(c) <= r)
    ensures !Occurs("\n" + Marker(c), r)
    ensures !Occurs("](", s) ==> !Occurs("](", r)
  {
    ListingLeavesNoBareMarker(s, c);
    ListingKeepsNoJoin(s, c);
    ListingMatchesReference(s, c);
    ReplaceAllLength(s, Marker(c), ListItem(c));
    ListingListsAll(s, c);
    ReplaceAll(s, Marker(c), ListItem(c))
  }

  /** Passes 6 and 7: `[c]` right after a newline becomes `- [c]`. */
  function ListTasksAfterNewline(s: string, c: char): (r: string)
    ensures !Occurs("\n" + Marker(c), s) ==> r == s
  {
    ReplaceAll(s, "\n" + Marker(c), "\n" + ListItem(c))
  }

  /** No task marker is left bare at the start of the text or of a line. */
  predicate TaskMarkersListed(t: string)
  {
    && !(Marker(' ') <= t) && !(Marker('x') <= t)
    && !Occurs("\n" + Marker(' '), t) && !Occurs("\n" + Marker('x'), t)
  }

  /**
   The seven passes in the order the source applies them: no `](` is left
   and every task marker, open or done, has `- ` before it.
   */
  function SanitizeText(s: string): (r: string)
    ensures !Occurs("](", r)
    ensures EveryMarkerListed(r, ' ') && EveryMarkerListed(r, 'x')
    ensures TaskMarkersListed(r)
  {
    var s1 := RemoveComments(s);
    var s2 := StripTrailing(s1);
    var s3 := SpaceLinks(s2);
    var s4 := ListTasks(s3, ' ');
    var s5 := ListTasks(s4, 'x');
    ListingKeepsOtherMarkersListed(s4, 'x', ' ');
    ListTasksKeepsListed(s4, 'x', ' ');
    var s6 := ListTasksAfterNewline(s5, ' ');
    var s7 := ListTasksAfterNewline(s6, 'x');
    s7
  }

  /**
   `sanitizeMarkdown`: `null`, `undefined` and `""` come back unchanged;
   any other string goes through the seven passes.
   */
  function SanitizeMarkdown(markdown: JsString): (r: JsString)
    ensures Falsy(markdown) ==> r == markdown
    ensures r.Str? <==> markdown.Str?
    ensures r.Str? ==> !Occurs("](", r.value) && TaskMarkersListed(r.value)
    ensures r.Str? ==> EveryMarkerListed(r.value, ' ') && EveryMarkerListed(r.value, 'x')
  {
    if Falsy(markdown) then markdown else Str(SanitizeText(markdown.value))
  }

  // ---------------------------------------------------------------------
  // The link and marker passes read position by position

  /** The link rule read position by position: a space goes between each `]` and a `(` right after it. */
  function SpacedLinks(s: string): string
    decreases |s|
  {
    if |s| == 0 then ""
    else if |s| >= 2 && s[0] == ']' && s[1] == '(' then "] " + SpacedLinks(s[1..])
    else [s[0]] + SpacedLinks(s[1..])
  }

  /** The marker rule read position by position: `- ` goes before each index where `[c]` starts. */
  function ListedMarkers(s: string, c: char): (r: string)
    ensures |r| >= |s|
    ensures |s| > 0 ==> r[0] == (if MarkerAt(s, 0, c) then '-' else s[0])
    decreases |s|
  {
    if |s| == 0 then ""
    else (if MarkerAt(s, 0, c) then "- " else "") + [s[0]] + ListedMarkers(s[1..], c)
  }

  /** The link pass is the position-by-position rule. */
  lemma {:induction false} SpaceLinksMatchesReference(s: string)
    ensures ReplaceAll(s, "](", "] (") == SpacedLinks(s)
    decreases |s|
  {
    if |s| > 0 {
      if "](" <= s {
        SpaceLinksMatchesReference(s[2..]);
        assert s[1..][1..] == s[2..];
      } else {
        SpaceLinksMatchesReference(s[1..]);
      }
    }
  }

  /** A marker pass is the position-by-position rule. */
  lemma {:induction false} ListingMatchesReference(s: string, c: char)
    requires TaskChar(c)
    ensures ReplaceAll(s, Marker(c), ListItem(c)) == ListedMarkers(s, c)
    decreases |s|
  {
    if |s| > 0 {
      MarkerIsPrefix(s, c);
      if Marker(c) <= s {
        ListingMatchesReference(s[3..], c);
        ListedAtMarker(s, c);
      } else {
        ListingMatchesReference(s[1..], c);
      }
    }
  }

  /** `[c]` opens `s` exactly when a marker starts at index 0. */
  lemma MarkerIsPrefix(s: string, c: char)
    ensures Marker(c) <= s <==> MarkerAt(s, 0, c)
  {
    if MarkerAt(s, 0, c) {
      assert s[..3] == Marker(c);
    }
  }

  /** At a marker the reference rule writes the whole list item and goes on after it. */
  lemma ListedAtMarker(s: string, c: char)
    requires TaskChar(c) && MarkerAt(s, 0, c)
    ensures ListedMarkers(s, c) == ListItem(c) + ListedMarkers(s[3..], c)
  {
    var u, v := s[1..], s[2..];
    assert u[1..] == v && v[1..] == s[3..];
    assert !MarkerAt(u, 0, c) && !MarkerAt(v, 0, c);
    assert ListedMarkers(v, c) == [s[2]] + ListedMarkers(s[3..], c);
    assert ListedMarkers(u, c) == [s[1]] + ListedMarkers(v, c);
  }

  /** After the `[c]` pass every `[c]` of the text has `- ` before it. */
  lemma ListingListsAll(s: string, c: char)
    requires TaskChar(c)
    ensures EveryMarkerListed(ReplaceAll(s, Marker(c), ListItem(c)), c)
  {
    ListingMatchesReference(s, c);
    MarkersListedFrom("", s, c);
    assert "" + ListedMarkers(s, c) == ListedMarkers(s, c);
  }

  /** The `[c]` pass keeps every `[d]` of a text listed when all of them were. */
  lemma ListTasksKeepsListed(s: string, c: char, d: char)
    requires TaskChar(c) && TaskChar(d) && c != d
    requires EveryMarkerListed(s, d)
    ensures EveryMarkerListed(ReplaceAll(s, Marker(c), ListItem(c)), d)
  {
    ListingMatchesReference(s, c);
    ListingKeepsListed("", s, c, d);
    assert "" + ListedMarkers(s, c) == ListedMarkers(s, c);
  }

  /** An output that opens with `d]` comes from an input that opens with `d]` and no marker. */
  lemma OpeningKept(u: string, c: char, d: char)
    requires TaskChar(c) && TaskChar(d)
    ensures |ListedMarkers(u, c)| >= 2 && ListedMarkers(u, c)[0] == d && ListedMarkers(u, c)[1] == ']'
      ==> |u| >= 2 && u[0] == d && u[1] == ']' && !MarkerAt(u, 0, c)
  {
    if |u| > 0 && |ListedMarkers(u, c)| >= 2 && ListedMarkers(u, c)[0] == d {
      assert ListedMarkers(u, c) == [u[0]] + ListedMarkers(u[1..], c);
    }
  }

  /**
   What a marker pass may rely on from the text before `s`: the output so far
   ends in `- `, or in `-` with `s` going on with a space.
   */
  predicate ListedAcross(p: string, s: string, d: char)
  {
    forall k :: 0 <= k < |s| && MarkerAt(s, k, d) ==>
      ListedAt(s, k)
      || (k == 0 && ListedAt(p, |p|))
      || (k == 1 && |p| >= 1 && p[|p| - 1] == '-' && s[0] == ' ')
  }

  /** After the `[c]` pass every `[c]` is listed, whatever came before. */
  lemma {:induction false} MarkersListedFrom(p: string, s: string, c: char)
    requires TaskChar(c)
    ensures forall i :: |p| <= i && MarkerAt(p + ListedMarkers(s, c), i, c) ==> ListedAt(p + ListedMarkers(s, c), i)
    decreases |s|
  {
    if |s| > 0 {
      var pre := if MarkerAt(s, 0, c) then "- " else "";
      var t := ListedMarkers(s[1..], c);
      var q := p + pre + [s[0]];
      assert p + ListedMarkers(s, c) == q + t;
      MarkersListedFrom(q, s[1..], c);
      OpeningKept(s[1..], c, c);
      var r := q + t;
      forall i | |p| <= i < |q| && MarkerAt(r, i, c)
        ensures ListedAt(r, i)
      {
        assert r[|q| - 1] == s[0] && (|t| > 0 ==> r[|q|] == t[0]) && (|t| > 1 ==> r[|q| + 1] == t[1]);
        assert s[1..][0] == s[1] && s[1..][1] == s[2];
      }
    } else {
      assert p + ListedMarkers(s, c) == p;
    }
  }

  /** The `[c]` pass keeps every `[d]` listed that was listed before it. */
  lemma {:induction false} ListingKeepsListed(p: string, s: string, c: char, d: char)
    requires TaskChar(c) && TaskChar(d) && c != d
    requires ListedAcross(p, s, d)
    ensures forall i :: |p| <= i && MarkerAt(p + ListedMarkers(s, c), i, d) ==> ListedAt(p + ListedMarkers(s, c), i)
    decreases |s|
  {
    if |s| > 0 {
      var q := p + (if MarkerAt(s, 0, c) then "- " else "") + [s[0]];
      assert p + ListedMarkers(s, c) == q + ListedMarkers(s[1..], c);
      AcrossStep(p, s, c, d);
      ListingKeepsListed(q, s[1..], c, d);
      HeadListed(p, s, c, d);
    } else {
      assert p + ListedMarkers(s, c) == p;
    }
  }

  /** What the pass may rely on carries over from `s` to `s[1..]` once `s[0]` is written out. */
  lemma AcrossStep(p: string, s: string, c: char, d: char)
    requires TaskChar(c) && TaskChar(d) && c != d && |s| > 0
    requires ListedAcross(p, s, d)
    ensures ListedAcross(p + (if MarkerAt(s, 0, c) then "- " else "") + [s[0]], s[1..], d)
  {
    var q := p + (if MarkerAt(s, 0, c) then "- " else "") + [s[0]];
    forall k | 0 <= k < |s[1..]| && MarkerAt(s[1..], k, d)
      ensures ListedAt(s[1..], k)
        || (k == 0 && ListedAt(q, |q|))
        || (k == 1 && |q| >= 1 && q[|q| - 1] == '-' && s[1..][0] == ' ')
    {
      assert MarkerAt(s, k + 1, d);
    }
  }

  /** A `[d]` that starts in what the pass writes for `s[0]` is listed. */
  lemma HeadListed(p: string, s: string, c: char, d: char)
    requires TaskChar(c) && TaskChar(d) && c != d && |s| > 0
    requires ListedAcross(p, s, d)
    ensures var pre := if MarkerAt(s, 0, c) then "- " else "";
      forall i :: |p| <= i < |p| + |pre| + 1 && MarkerAt(p + ListedMarkers(s, c), i, d) ==> ListedAt(p + ListedMarkers(s, c), i)
  {
    var pre := if MarkerAt(s, 0, c) then "- " else "";
    var t := ListedMarkers(s[1..], c);
    var q := p + pre + [s[0]];
    var r := q + t;
    assert p + ListedMarkers(s, c) == r;
    OpeningKept(s[1..], c, d);
    assert MarkerAt(s, 0, d) ==> ListedAt(p, |p|);
    assert r[|q| - 1] == s[0] && (|t| > 0 ==> r[|q|] == t[0]) && (|t| > 1 ==> r[|q| + 1] == t[1]);
    assert |s| > 2 ==> s[1..][0] == s[1] && s[1..][1] == s[2];
    assert pre == "- " ==> r[|p|] == '-' && r[|p| + 1] == ' ';
    assert pre == "" && |p| >= 2 ==> r[|p| - 2] == p[|p| - 2] && r[|p| - 1] == p[|p| - 1];
  }

  // ---------------------------------------------------------------------
  // Proofs about the passes

  /** The pattern `s+$/` cannot match anywhere: after `$` no character is left for `/`. */
  lemma TrailingPatternNeverMatches(s: string, i: nat)
    requires i <= |s|
    ensures MatchAt(TrailingPattern, s, i).None?
  {
    if i < |s| && s[i] == 's' {
      AnchorThenSlashFails(s, i, i + RunLength(s, i, 's'));
    }
  }

  /** Every way of ending the `s+` run leaves `$/` unmatched. */
  lemma {:induction false} AnchorThenSlashFails(s: string, start: nat, j: nat)
    requires start < j <= |s|
    ensures TryRunEnds([EndOfInput, Lit('/')], s, start, j).None?
    decreases j
  {
    var rest := [EndOfInput, Lit('/')];
    assert rest[1..] == [Lit('/')];
    if j == |s| {
      assert MatchAt(rest[1..], s, j).None?;
    }
    assert MatchAt(rest, s, j).None?;
    if j > start + 1 {
      AnchorThenSlashFails(s, start, j - 1);
    }
  }

  /** The trailing-whitespace pass changes nothing. */
  lemma TrailingPassIsIdentity(s: string)
    ensures ReplaceMatches(TrailingPattern, s, 0, "") == s
  {
    forall k | 0 <= k <= |s|
      ensures MatchAt(TrailingPattern, s, k).None?
    {
      TrailingPatternNeverMatches(s, k);
    }
  }

  /** After the link pass no `](` is left. */
  lemma {:induction false} SpaceLinksLeavesNoJoin(s: string)
    ensures !Occurs("](", ReplaceAll(s, "](", "] ("))
    decreases |s|
  {
    if |s| > 0 {
      var r := ReplaceAll(s, "](", "] (");
      if "](" <= s {
        var tail := ReplaceAll(s[2..], "](", "] (");
        SpaceLinksLeavesNoJoin(s[2..]);
        assert r == "] (" + tail;
        forall i | 0 <= i < 3
          ensures !("](" <= ("] (" + tail)[i..])
        {
          PrefixAtIndex("](", "] (", tail, i);
          if i == 0 {
            PrefixAtIndex("(", "] (", tail, 1);
          }
        }
        NoOccurrenceInConcat("](", "] (", tail);
      } else {
        var tail := ReplaceAll(s[1..], "](", "] (");
        SpaceLinksLeavesNoJoin(s[1..]);
        assert r == [s[0]] + tail;
        if s[0] == ']' && "(" <= tail {
          PrefixSurvives(s[1..], "](", "] (", "(");
        }
        PrefixAtIndex("](", [s[0]], tail, 0);
        NoOccurrenceInConcat("](", [s[0]], tail);
      }
    }
  }

  /** Listing `[c]` markers never creates a `](`. */
  lemma {:induction false} ListingKeepsNoJoin(s: string, c: char)
    requires TaskChar(c)
    ensures !Occurs("](", s) ==> !Occurs("](", ReplaceAll(s, Marker(c), ListItem(c)))
    decreases |s|
  {
    if |s| > 0 && !Occurs("](", s) {
      var r := ReplaceAll(s, Marker(c), ListItem(c));
      if Marker(c) <= s {
        assert |s| >= 3 && s[2] == ']';
        var rest := s[3..];
        var tail := ReplaceAll(rest, Marker(c), ListItem(c));
        OccursStepsThrough("](", s, 3);
        ListingKeepsNoJoin(rest, c);
        assert r == ListItem(c) + tail;
        if "(" <= tail {
          PrefixSurvives(rest, Marker(c), ListItem(c), "(");
          assert s[2..] == s[2..3] + rest;
          OccursAt("](", s, 2);
        }
        forall i | 0 <= i < 5
          ensures !("](" <= (ListItem(c) + tail)[i..])
        {
          PrefixAtIndex("](", ListItem(c), tail, i);
        }
        NoOccurrenceInConcat("](", ListItem(c), tail);
      } else {
        var tail := ReplaceAll(s[1..], Marker(c), ListItem(c));
        OccursStepsThrough("](", s, 1);
        ListingKeepsNoJoin(s[1..], c);
        assert r == [s[0]] + tail;
        if s[0] == ']' && "(" <= tail {
          PrefixSurvives(s[1..], Marker(c), ListItem(c), "(");
        }
        PrefixAtIndex("](", [s[0]], tail, 0);
        NoOccurrenceInConcat("](", [s[0]], tail);
      }
    }
  }

  /** After listing `[c]`, no bare `[c]` starts the text or follows a newline. */
  lemma {:induction false} ListingLeavesNoBareMarker(s: string, c: char)
    requires TaskChar(c)
    ensures !(Marker(c) <= ReplaceAll(s, Marker(c), ListItem(c)))
    ensures !Occurs("\n" + Marker(c), ReplaceAll(s, Marker(c), ListItem(c)))
    decreases |s|
  {
    var r := ReplaceAll(s, Marker(c), ListItem(c));
    if |s| > 0 {
      ReplaceHead(s, Marker(c), ListItem(c));
      if Marker(c) <= r {
        PrefixSurvives(s, Marker(c), ListItem(c), Marker(c));
      }
      if Marker(c) <= s {
        var tail := ReplaceAll(s[3..], Marker(c), ListItem(c));
        ListingLeavesNoBareMarker(s[3..], c);
        assert r == ListItem(c) + tail;
        forall i | 0 <= i < 5
          ensures !(("\n" + Marker(c)) <= (ListItem(c) + tail)[i..])
        {
          PrefixAtIndex("\n" + Marker(c), ListItem(c), tail, i);
        }
        NoOccurrenceInConcat("\n" + Marker(c), ListItem(c), tail);
      } else {
        var tail := ReplaceAll(s[1..], Marker(c), ListItem(c));
        ListingLeavesNoBareMarker(s[1..], c);
        assert r == [s[0]] + tail;
        PrefixAtIndex("\n" + Marker(c), [s[0]], tail, 0);
        NoOccurrenceInConcat("\n" + Marker(c), [s[0]], tail);
      }
    }
  }

  /** Listing `[c]` does not put a bare `[d]` after a newline or at the start. */
  lemma ListingKeepsOtherMarkersListed(s: string, c: char, d: char)
    requires TaskChar(c) && TaskChar(d)
    requires !(Marker(d) <= s) && !Occurs("\n" + Marker(d), s)
    ensures !(Marker(d) <= ReplaceAll(s, Marker(c), ListItem(c)))
    ensures !Occurs("\n" + Marker(d), ReplaceAll(s, Marker(c), ListItem(c)))
  {
    if Marker(d) <= ReplaceAll(s, Marker(c), ListItem(c)) {
      PrefixSurvives(s, Marker(c), ListItem(c), Marker(d));
    }
    ListingKeepsNoLineStartMarker(s, c, d);
  }

  /** Listing `[c]` never creates a `\n[d]`. */
  lemma {:induction false} ListingKeepsNoLineStartMarker(s: string, c: char, d: char)
    requires TaskChar(c) && TaskChar(d)
    requires !Occurs("\n" + Marker(d), s)
    ensures !Occurs("\n" + Marker(d), ReplaceAll(s, Marker(c), ListItem(c)))
    decreases |s|
  {
    var r := ReplaceAll(s, Marker(c), ListItem(c));
    var bad := "\n" + Marker(d);
    if |s| > 0 {
      if Marker(c) <= s {
        var tail := ReplaceAll(s[3..], Marker(c), ListItem(c));
        OccursStepsThrough(bad, s, 3);
        ListingKeepsNoLineStartMarker(s[3..], c, d);
        assert r == ListItem(c) + tail;
        forall i | 0 <= i < 5
          ensures !(bad <= (ListItem(c) + tail)[i..])
        {
          PrefixAtIndex(bad, ListItem(c), tail, i);
        }
        NoOccurrenceInConcat(bad, ListItem(c), tail);
      } else {
        var tail := ReplaceAll(s[1..], Marker(c), ListItem(c));
        OccursStepsThrough(bad, s, 1);
        ListingKeepsNoLineStartMarker(s[1..], c, d);
        assert r == [s[0]] + tail;
        if s[0] == '\n' && Marker(d) <= tail {
          PrefixSurvives(s[1..], Marker(c), ListItem(c), Marker(d));
        }
        PrefixAtIndex(bad, [s[0]], tail, 0);
        NoOccurrenceInConcat(bad, [s[0]], tail);
      }
    }
  }

  /** Absence in a string carries over to each of its suffixes. */
  lemma OccursStepsThrough(p: string, s: string, k: nat)
    requires k <= |s|
    ensures !Occurs(p, s) ==> !Occurs(p, s[k..])
  {
    if Occurs(p, s[k..]) {
      OccursInSuffix(p, s, k);
    }
  }

  // ---------------------------------------------------------------------
  // Consequences for the whole pipeline

  /**
   The two newline passes never change anything: the whole pipeline
   equals its first five passes.
   */
  lemma NewlinePassesAreRedundant(s: string)
    ensures SanitizeText(s) == ListTasks(ListTasks(SpaceLinks(RemoveComments(s)), ' '), 'x')
  {
    var s4 := ListTasks(SpaceLinks(StripTrailing(RemoveComments(s))), ' ');
    ListingKeepsOtherMarkersListed(s4, 'x', ' ');
  }

  /** An open marker after text without `[` gains one `- `, in one pass. */
  lemma ListingTrailingMarker(p: string)
    requires '[' !in p
    ensures ReplaceAll(p + Marker(' '), Marker(' '), ListItem(' ')) == p + ListItem(' ')
  {
    var m, li := Marker(' '), ListItem(' ');
    assert ReplaceAll(m, m, li) == li by {
      ReplaceAtMatch(m, [], li);
      assert m + [] == m && li + [] == li;
    }
    ReplaceSkipsClean(p, m, m, li);
  }

  /** The done-marker pass leaves text with no done marker alone. */
  lemma DonePassKeepsListedMarker(p: string)
    requires '[' !in p
    ensures ReplaceAll(p + ListItem(' '), Marker('x'), ListItem('x')) == p + ListItem(' ')
  {
    var m, li := Marker('x'), ListItem('x');
    var q := p + "- ";
    assert '[' !in q;
    assert ReplaceAll(Marker(' '), m, li) == Marker(' ') by {
      MissingCharMeansAbsent(m, Marker(' '), 1);
    }
    ReplaceSkipsClean(q, Marker(' '), m, li);
    assert p + ListItem(' ') == q + Marker(' ');
  }

  /** An open marker after text without `[`, `<` or `(` gains one `- ` from the pipeline. */
  lemma SanitizeListsMarker(p: string)
    requires '[' !in p && '<' !in p && '(' !in p
    ensures SanitizeMarkdown(Str(p + Marker(' '))) == Str(p + ListItem(' '))
  {
    var s := p + Marker(' ');
    assert '<' !in s && '(' !in s;
    MissingCharMeansAbsent("<!-- -->", s, 0);
    MissingCharMeansAbsent("](", s, 1);
    NewlinePassesAreRedundant(s);
    ListingTrailingMarker(p);
    DonePassKeepsListedMarker(p);
  }

  /** A list item is a marker with `- ` in front. */
  lemma ListItemShape(p: string, c: char)
    ensures (p + "- ") + Marker(c) == p + ListItem(c)
  {
  }

  /**
   Sanitizing is not idempotent: text ending in the open marker `"[ ]"` gets
   it listed as `"- [ ]"`, and sanitizing that again gives `"- - [ ]"`; each
   pass adds another `- ` before a marker.
   */
  lemma SanitizeIsNotIdempotent(p: string)
    requires '[' !in p && '<' !in p && '(' !in p
    ensures SanitizeMarkdown(Str(p + Marker(' '))) == Str(p + ListItem(' '))
    ensures SanitizeMarkdown(SanitizeMarkdown(Str(p + Marker(' ')))) == Str(p + "- " + ListItem(' '))
    ensures SanitizeMarkdown(SanitizeMarkdown(Str(p + Marker(' ')))) != SanitizeMarkdown(Str(p + Marker(' ')))
  {
    SanitizeListsMarker(p);
    var q := p + "- ";
    assert '[' !in q && '<' !in q && '(' !in q;
    SanitizeListsMarker(q);
    ListItemShape(p, ' ');
  }

  /** Text with no bracket, parenthesis or comment opener: the passes leave it alone. */
  predicate Plain(t: string)
  {
    '[' !in t && ']' !in t && '(' !in t && '<' !in t
  }

  /** Plain text contains none of the patterns. */
  lemma PlainHasNoPatterns(t: string)
    requires Plain(t)
    ensures !Occurs("<!-- -->", t) && !Occurs("](", t)
    ensures !Occurs(Marker(' '), t) && !Occurs(Marker('x'), t)
  {
    MissingCharMeansAbsent("<!-- -->", t, 0);
    MissingCharMeansAbsent("](", t, 0);
    MissingCharMeansAbsent(Marker(' '), t, 0);
    MissingCharMeansAbsent(Marker('x'), t, 0);
  }

  /** The open-marker pass on two task lines. */
  lemma ListingOpenTaskLine(a: string, b: string)
    requires Plain(a) && Plain(b)
    ensures ReplaceAll("[x]" + a + "\n[ ]" + b, Marker(' '), ListItem(' ')) == "[x]" + a + "\n- [ ]" + b
  {
    var m, li := Marker(' '), ListItem(' ');
    var x := "x]" + a + "\n";
    ListingPlainThenMarker(x, b);
    assert ReplaceAll(['['] + (x + (m + b)), m, li) == ['['] + (x + (li + b)) by {
      assert (['['] + (x + (m + b)))[1] != m[1];
      ReplaceAtMismatch('[', x + (m + b), m, li);
    }
    assert "[x]" + a + "\n[ ]" + b == ['['] + (x + (m + b));
  }

  /** Open-marker listing over text without brackets followed by one open marker. */
  lemma ListingPlainThenMarker(x: string, b: string)
    requires '[' !in x && '[' !in b
    ensures ReplaceAll(x + (Marker(' ') + b), Marker(' '), ListItem(' ')) == x + (ListItem(' ') + b)
  {
    var m, li := Marker(' '), ListItem(' ');
    MissingCharMeansAbsent(m, b, 0);
    ReplaceAtMatch(m, b, li);
    ReplaceSkipsClean(x, m + b, m, li);
  }

  /** The done-marker pass leaves an open marker alone. */
  lemma DonePassSkipsOpenMarker(b: string)
    requires Plain(b)
    ensures ReplaceAll("[ ]" + b, Marker('x'), ListItem('x')) == "[ ]" + b
  {
    var m, li := Marker('x'), ListItem('x');
    var t := "[ ]" + b;
    var y := " ]" + b;
    PlainHasNoPatterns(b);
    assert '[' !in y;
    MissingCharMeansAbsent(m, y, 0);
    assert t[1..] == y && t[1] != m[1];
  }

  /** A leading done marker is listed; the rest, which the pass keeps, follows. */
  lemma ListingLeadingDoneMarker(x: string, t: string)
    requires '[' !in x && ReplaceAll(t, Marker('x'), ListItem('x')) == t
    ensures ReplaceAll(Marker('x') + (x + t), Marker('x'), ListItem('x')) == ListItem('x') + (x + t)
  {
    ReplaceSkipsClean(x, t, Marker('x'), ListItem('x'));
    ReplaceAtMatch(Marker('x'), x + t, ListItem('x'));
  }

  /** How the two task lines are cut up for the done-marker pass. */
  lemma DoneTaskLineShape(a: string, b: string)
    ensures "[x]" + a + "\n- [ ]" + b == Marker('x') + ((a + "\n- ") + ("[ ]" + b))
    ensures "- [x]" + a + "\n- [ ]" + b == ListItem('x') + ((a + "\n- ") + ("[ ]" + b))
  {
  }

  /** The done-marker pass on two task lines, once the open one is listed. */
  lemma ListingDoneTaskLine(a: string, b: string)
    requires Plain(a) && Plain(b)
    ensures ReplaceAll("[x]" + a + "\n- [ ]" + b, Marker('x'), ListItem('x')) == "- [x]" + a + "\n- [ ]" + b
  {
    DonePassSkipsOpenMarker(b);
    assert '[' !in a + "\n- ";
    ListingLeadingDoneMarker(a + "\n- ", "[ ]" + b);
    DoneTaskLineShape(a, b);
  }

  /**
   Task markers at the start of the text and of a later line are both
   listed: `[x]` + `a` + newline + `[ ]` + `b` becomes the same with `- `
   before each marker.
   */
  lemma TaskLinesAreListed(a: string, b: string)
    requires Plain(a) && Plain(b)
    ensures SanitizeText("[x]" + a + "\n[ ]" + b) == "- [x]" + a + "\n- [ ]" + b
  {
    var s := "[x]" + a + "\n[ ]" + b;
    assert SpaceLinks(RemoveComments(s)) == s by {
      assert '<' !in s && '(' !in s;
      MissingCharMeansAbsent("<!-- -->", s, 0);
      MissingCharMeansAbsent("](", s, 1);
    }
    NewlinePassesAreRedundant(s);
    ListingOpenTaskLine(a, b);
    ListingDoneTaskLine(a, b);
  }

  /** `"[x] done\n[ ] todo"` sanitizes to `"- [x] done\n- [ ] todo"`. */
  lemma TaskListExample(done: string, todo: string)
    requires done == " done" && todo == " todo"
    ensures SanitizeMarkdown(Str("[x]" + done + "\n[ ]" + todo)) == Str("- [x]" + done + "\n- [ ]" + todo)
  {
    TaskLinesAreListed(done, todo);
  }

  /** The link pass on an image link. */
  lemma SpacingImageLink(alt: string, url: string)
    requires Plain(alt) && Plain(url)
    ensures SpaceLinks("![" + alt + "](" + url + ")") == "![" + alt + "] (" + url + ")"
  {
    var j, js := "](", "] (";
    var rest := url + ")";
    assert ReplaceAll(rest, j, js) == rest by {
      assert ']' !in rest;
      MissingCharMeansAbsent(j, rest, 0);
    }
    assert ReplaceAll(j + rest, j, js) == js + rest by {
      assert (j + rest)[2..] == rest;
    }
    assert ReplaceAll(("![" + alt) + (j + rest), j, js) == ("![" + alt) + (js + rest) by {
      assert ']' !in "![" + alt;
      ReplaceSkipsClean("![" + alt, j + rest, j, js);
    }
    assert "![" + alt + "](" + url + ")" == ("![" + alt) + (j + rest);
  }

  /** `[alt]` is not itself a task marker unless `alt` is a single task character. */
  lemma LinkTextIsNotMarker(t: string, alt: string, c: char)
    requires TaskChar(c) && Plain(alt) && alt != [c]
    requires |t| > 0 && t[0] == ']'
    ensures !(Marker(c) <= "[" + alt + t)
  {
    var u := "[" + alt + t;
    if |alt| >= 2 {
      assert u[2] == alt[1];
    } else if |alt| == 1 {
      assert u[1] == alt[0];
      assert alt == [alt[0]];
    } else {
      assert u[1] == t[0];
    }
  }

  /** A marker pass leaves text without `[` alone. */
  lemma ListingSkipsBracketless(a: string, b: string, c: char)
    requires '[' !in a && '[' !in b
    ensures ReplaceAll(a + b, Marker(c), ListItem(c)) == a + b
  {
    assert '[' !in a + b;
    MissingCharMeansAbsent(Marker(c), a + b, 0);
  }

  /** How a link text is cut up for the marker passes. */
  lemma LinkTextShape(alt: string, t: string)
    ensures "[" + alt + t == ['['] + (alt + t)
  {
  }

  /** A marker pass leaves a link text alone unless it is a single task character. */
  lemma ListingSkipsLinkText(t: string, alt: string, c: char)
    requires TaskChar(c) && Plain(alt) && alt != [c]
    requires '[' !in t && |t| > 0 && t[0] == ']'
    ensures ReplaceAll("[" + alt + t, Marker(c), ListItem(c)) == "[" + alt + t
  {
    ListingSkipsBracketless(alt, t, c);
    LinkTextIsNotMarker(t, alt, c);
    LinkTextShape(alt, t);
    ReplaceAtMismatch('[', alt + t, Marker(c), ListItem(c));
  }

  /** How a spaced image link is cut up for the marker passes. */
  lemma SpacedLinkShape(alt: string, url: string)
    ensures "![" + alt + "] (" + url + ")" == ['!'] + ("[" + alt + ("] (" + url + ")"))
  {
  }

  /** A marker pass leaves a spaced image link alone. */
  lemma ListingSkipsSpacedLink(alt: string, url: string, c: char)
    requires TaskChar(c) && Plain(alt) && Plain(url) && alt != [c]
    ensures ReplaceAll("![" + alt + "] (" + url + ")", Marker(c), ListItem(c)) == "![" + alt + "] (" + url + ")"
  {
    var t := "] (" + url + ")";
    ListingSkipsLinkText(t, alt, c);
    ReplaceAfterOther('!', "[" + alt + t, Marker(c), ListItem(c));
    SpacedLinkShape(alt, url);
  }

  /** Image links get a space after `]`: `![alt](url)` becomes `![alt] (url)`. */
  lemma ImageLinkIsSpaced(alt: string, url: string)
    requires Plain(alt) && Plain(url) && alt != " " && alt != "x"
    ensures SanitizeText("![" + alt + "](" + url + ")") == "![" + alt + "] (" + url + ")"
  {
    var s := "![" + alt + "](" + url + ")";
    assert RemoveComments(s) == s by {
      assert '<' !in s;
      MissingCharMeansAbsent("<!-- -->", s, 0);
    }
    SpacingImageLink(alt, url);
    NewlinePassesAreRedundant(s);
    ListingSkipsSpacedLink(alt, url, ' ');
    ListingSkipsSpacedLink(alt, url, 'x');
  }

  /** `"![alt](http://x/y.png)"` sanitizes to `"![alt] (http://x/y.png)"`. */
  lemma ImageLinkExample(alt: string, url: string)
    requires alt == "alt" && url == "http://x/y.png"
    ensures SanitizeMarkdown(Str("![" + alt + "](" + url + ")")) == Str("![" + alt + "] (" + url + ")")
  {
    ImageLinkIsSpaced(alt, url);
  }

  /** Text without `(` or `[` passes the link and task passes unchanged. */
  lemma LinkAndTaskPassesKeep(t: string)
    requires '(' !in t && '[' !in t
    ensures ListTasks(ListTasks(SpaceLinks(t), ' '), 'x') == t
  {
    MissingCharMeansAbsent("](", t, 1);
    MissingCharMeansAbsent(Marker(' '), t, 0);
    MissingCharMeansAbsent(Marker('x'), t, 0);
  }

  /** Text without `<`, `(` or `[` comes through the whole pipeline unchanged. */
  lemma PlainTextIsKept(t: string)
    requires '<' !in t && '(' !in t && '[' !in t
    ensures SanitizeText(t) == t
  {
    MissingCharMeansAbsent("<!-- -->", t, 0);
    NewlinePassesAreRedundant(t);
    LinkAndTaskPassesKeep(t);
  }

  /** The comment pass on `"<!-<!-- -->- -->"` leaves `"<!-- -->"`. */
  lemma RemovalAssemblesComment(head: string, c: string, tail: string)
    requires head == "<!-" && c == "<!-- -->" && tail == "- -->"
    ensures RemoveComments(head + c + tail) == c
  {
    assert forall i :: 0 <= i < |head| ==> !(c <= (head + (c + tail))[i..]) by {
      forall i | 0 <= i < |head| ensures !(c <= (head + (c + tail))[i..]) {
        PrefixAtIndex(c, head, c + tail, i);
        if i == 0 {
          assert (head + (c + tail))[3] != c[3];
        }
      }
    }
    MissingCharMeansAbsent(c, tail, 0);
    ReplaceAroundMatch(head, c, tail, "");
    assert head + "" + tail == c;
  }

  /**
   One removal pass can assemble a new empty comment from the pieces around
   a removed one, so a sanitized text may still contain `<!-- -->`:
   `"<!-<!-- -->- -->"` sanitizes to `"<!-- -->"`.
   */
  lemma CommentCanSurviveRemoval(head: string, tail: string)
    requires head == "<!-" && tail == "- -->"
    ensures SanitizeMarkdown(Str(head + "<!-- -->" + tail)) == Str("<!-- -->")
  {
    var c := "<!-- -->";
    RemovalAssemblesComment(head, c, tail);
    SanitizeAfterRemoval(head + c + tail, c);
  }

  /** When removing the comments leaves no `(` and no `[`, the later passes change nothing. */
  lemma SanitizeAfterRemoval(s: string, t: string)
    requires RemoveComments(s) == t && '(' !in t && '[' !in t && s != ""
    ensures SanitizeMarkdown(Str(s)) == Str(t)
  {
    LinkAndTaskPassesKeep(t);
    NewlinePassesAreRedundant(s);
  }
}
