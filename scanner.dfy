/**
 * The marker pattern that the placeholder parser and the placeholder
 * processor share: the global regular expression `\{\{([^}]+)\}\}`, applied
 * the way `String.prototype.matchAll` and `String.prototype.replace` apply a
 * global expression (leftmost match first, the next search starting where the
 * previous match ended).
 *
 * At a position `i` the expression needs `{{`, then the greedy class `[^}]+`
 * takes every character up to the first `}` (at least one of them), and then
 * `}}` must follow.  Backtracking cannot help: giving back a character of the
 * class leaves a non-`}` where `}` is needed.  So whether the expression
 * matches at `i` depends only on where the first `}` after `i + 2` is.
 */
module Scanner {
  import opened Text

  /** One match: `{{` at `start`, `}}` ending just before `end`, and the capture group `inner`. */
  datatype Match = Match(start: nat, end: nat, inner: string)

  /** The index of the first `}` at or after `k`, or `|s|` when there is none. */
  function CloseIndex(s: string, k: nat): (j: nat)
    requires k <= |s|
    ensures k <= j <= |s|
    ensures j < |s| ==> s[j] == '}'
    ensures forall i :: k <= i < j ==> s[i] != '}'
    decreases |s| - k
  {
    if k == |s| || s[k] == '}' then k else CloseIndex(s, k + 1)
  }

  /** The expression matches at position `i` (the operational reading). */
  predicate MatchesAt(s: string, i: nat) {
    && i + 2 <= |s| && s[i] == '{' && s[i + 1] == '{'
    && var j := CloseIndex(s, i + 2);
       i + 2 < j && j + 1 < |s| && s[j + 1] == '}'
  }

  /** The capture group of the match at `i`. */
  function InnerAt(s: string, i: nat): string
    requires MatchesAt(s, i)
  {
    s[i + 2..CloseIndex(s, i + 2)]
  }

  /**
   * The declarative reading of the pattern: at `i` the text is `{{`, then
   * `w`, one or more characters none of which is `}`, then `}}`.
   */
  predicate MarkerAt(s: string, i: nat, w: string) {
    && |w| >= 1 && '}' !in w
    && i + |w| + 4 <= |s|
    && s[i..i + |w| + 4] == "{{" + w + "}}"
  }

  /** The two readings agree: the expression matches exactly where a marker stands, with the marker's inner text. */
  lemma MatchesAtIffMarker(s: string, i: nat, w: string)
    ensures MatchesAt(s, i) ==> MarkerAt(s, i, InnerAt(s, i))
    ensures MarkerAt(s, i, w) ==> MatchesAt(s, i) && InnerAt(s, i) == w
  {
    if MatchesAt(s, i) {
      MatchIsMarker(s, i);
    }
    if MarkerAt(s, i, w) {
      MarkerIsMatch(s, i, w);
    }
  }

  lemma MatchIsMarker(s: string, i: nat)
    requires MatchesAt(s, i)
    ensures MarkerAt(s, i, InnerAt(s, i))
  {
    var j := CloseIndex(s, i + 2);
    var v := s[i + 2..j];
    assert s[i..j + 2] == "{{" + v + "}}";
    forall k | 0 <= k < |v| ensures v[k] != '}' {
      assert v[k] == s[i + 2 + k];
    }
  }

  lemma MarkerIsMatch(s: string, i: nat, w: string)
    requires MarkerAt(s, i, w)
    ensures MatchesAt(s, i) && InnerAt(s, i) == w
  {
    var m := s[i..i + |w| + 4];
    MarkerPieces(w);
    assert s[i] == m[0] && s[i + 1] == m[1];
    forall k | i + 2 <= k < i + 2 + |w| ensures s[k] != '}' {
      assert s[k] == m[k - i];
      assert m[k - i] == w[k - i - 2];
    }
    assert s[i + 2 + |w|] == m[|w| + 2];
    assert s[i + 3 + |w|] == m[|w| + 3];
    assert CloseIndex(s, i + 2) == i + 2 + |w|;
    SliceOfSlice(s, i, i + |w| + 4, 2, |w| + 2);
  }

  /** The parts of a marker's text. */
  lemma MarkerPieces(w: string)
    ensures var m := "{{" + w + "}}";
      && |m| == |w| + 4 && m[0] == '{' && m[1] == '{'
      && m[|w| + 2] == '}' && m[|w| + 3] == '}' && m[2..|w| + 2] == w
      && forall k :: 0 <= k < |w| ==> m[k + 2] == w[k]
  {
  }

  /**
   * `ms` is a left-to-right list of non-overlapping markers of `s`, all at or
   * after `pos`, each recorded with its true end.
   */
  predicate WellFormed(s: string, ms: seq<Match>, pos: nat)
    decreases |ms|
  {
    ms == [] ||
    (&& pos <= ms[0].start
     && MarkerAt(s, ms[0].start, ms[0].inner)
     && ms[0].end == ms[0].start + |ms[0].inner| + 4
     && WellFormed(s, ms[1..], ms[0].end))
  }

  /**
   * No match is missed: from `pos` on, the expression matches at no position
   * before the first match of `ms`, none between two of them, and none after
   * the last.
   */
  predicate NoneMissed(s: string, ms: seq<Match>, pos: nat)
    decreases |ms|
  {
    if ms == [] then forall p :: pos <= p < |s| ==> !MatchesAt(s, p)
    else
      && (forall p :: pos <= p < ms[0].start ==> !MatchesAt(s, p))
      && NoneMissed(s, ms[1..], ms[0].end)
  }

  /** The matches of the global expression in `s` found from `pos` on, leftmost first. */
  function ScanFrom(s: string, pos: nat): (ms: seq<Match>)
    requires pos <= |s|
    ensures WellFormed(s, ms, pos)
    decreases |s| - pos
  {
    if pos == |s| then []
    else if MatchesAt(s, pos) then
      var j := CloseIndex(s, pos + 2);
      MatchesAtIffMarker(s, pos, []);
      [Match(pos, j + 2, s[pos + 2..j])] + ScanFrom(s, j + 2)
    else
      ScanFrom(s, pos + 1)
  }

  /** The matches of the global expression in all of `s`: what `matchAll` and `replace` visit. */
  function Scan(s: string): (ms: seq<Match>)
    ensures WellFormed(s, ms, 0)
  {
    ScanFrom(s, 0)
  }

  /** A well-formed list never starts before its lower bound nor reaches past the text. */
  lemma WellFormedBounds(s: string, ms: seq<Match>, pos: nat)
    requires WellFormed(s, ms, pos) && ms != []
    ensures pos <= ms[0].start && ms[0].start + 5 <= ms[0].end <= |s|
  {
  }

  /** A position where nothing matches widens the first gap by one. */
  lemma NoneMissedWiden(s: string, ms: seq<Match>, pos: nat)
    requires NoneMissed(s, ms, pos + 1) && !MatchesAt(s, pos)
    requires ms != [] ==> pos < ms[0].start
    ensures NoneMissed(s, ms, pos)
  {
  }

  /** A match that starts the list right at `pos` leaves no gap before it. */
  lemma NoneMissedCons(s: string, m: Match, rest: seq<Match>, pos: nat)
    requires m.start == pos && NoneMissed(s, rest, m.end)
    ensures NoneMissed(s, [m] + rest, pos)
  {
    assert ([m] + rest)[1..] == rest;
  }

  /** The scanner misses no match. */
  lemma {:induction false} ScanNoneMissed(s: string, pos: nat)
    requires pos <= |s|
    ensures NoneMissed(s, ScanFrom(s, pos), pos)
    decreases |s| - pos
  {
    if pos == |s| {
    } else if MatchesAt(s, pos) {
      var j := CloseIndex(s, pos + 2);
      ScanNoneMissed(s, j + 2);
      NoneMissedCons(s, Match(pos, j + 2, s[pos + 2..j]), ScanFrom(s, j + 2), pos);
    } else {
      var ms := ScanFrom(s, pos + 1);
      ScanNoneMissed(s, pos + 1);
      if ms != [] {
        WellFormedBounds(s, ms, pos + 1);
      }
      NoneMissedWiden(s, ms, pos);
    }
  }

  /**
   * The scanner is the only list of matches with these two properties: any
   * well-formed list from `pos` that misses no match is the scanner's.
   * Together with the contract of ScanFrom and ScanNoneMissed this says that
   * the scanner finds the matches leftmost first, without overlap, and no
   * others.
   */
  lemma {:induction false} ScanUnique(s: string, pos: nat, ms: seq<Match>)
    requires pos <= |s|
    requires WellFormed(s, ms, pos) && NoneMissed(s, ms, pos)
    ensures ms == ScanFrom(s, pos)
    decreases |s| - pos
  {
    if pos == |s| {
      NothingAtEnd(s, ms, pos);
    } else if MatchesAt(s, pos) {
      FirstMatchIsAt(s, ms, pos);
      ScanUnique(s, ms[0].end, ms[1..]);
      ConsFirst(ms);
      ScanFromAtMatch(s, pos);
    } else {
      NarrowGap(s, ms, pos);
      ScanUnique(s, pos + 1, ms);
      ScanFromSkips(s, pos);
    }
  }

  /** A well-formed list from the end of the text is empty. */
  lemma NothingAtEnd(s: string, ms: seq<Match>, pos: nat)
    requires pos == |s| && WellFormed(s, ms, pos)
    ensures ms == [] && ScanFrom(s, pos) == []
  {
    if ms != [] {
      WellFormedBounds(s, ms, pos);
    }
  }

  /** A non-empty list is its head followed by its tail. */
  lemma ConsFirst(ms: seq<Match>)
    requires ms != []
    ensures ms == [ms[0]] + ms[1..]
  {
  }

  /** Where the expression matches, the scan takes the match and goes on after it. */
  lemma ScanFromAtMatch(s: string, pos: nat)
    requires pos < |s| && MatchesAt(s, pos)
    ensures var j := CloseIndex(s, pos + 2);
      j + 2 <= |s| && ScanFrom(s, pos) == [Match(pos, j + 2, s[pos + 2..j])] + ScanFrom(s, j + 2)
  {
  }

  /** Where the expression does not match, the scan goes on at the next position. */
  lemma ScanFromSkips(s: string, pos: nat)
    requires pos < |s| && !MatchesAt(s, pos)
    ensures ScanFrom(s, pos) == ScanFrom(s, pos + 1)
  {
  }

  /** Where the expression matches at `pos`, a complete list from `pos` starts with that match. */
  lemma FirstMatchIsAt(s: string, ms: seq<Match>, pos: nat)
    requires WellFormed(s, ms, pos) && NoneMissed(s, ms, pos) && MatchesAt(s, pos)
    ensures ms != [] && ms[0] == Match(pos, CloseIndex(s, pos + 2) + 2, s[pos + 2..CloseIndex(s, pos + 2)])
    ensures WellFormed(s, ms[1..], ms[0].end) && NoneMissed(s, ms[1..], ms[0].end)
  {
    assert ms != [];
    assert ms[0].start == pos;
    MatchesAtIffMarker(s, pos, ms[0].inner);
  }

  /** Where nothing matches at `pos`, a complete list from `pos` is one from `pos + 1`. */
  lemma NarrowGap(s: string, ms: seq<Match>, pos: nat)
    requires WellFormed(s, ms, pos) && NoneMissed(s, ms, pos) && !MatchesAt(s, pos)
    ensures WellFormed(s, ms, pos + 1) && NoneMissed(s, ms, pos + 1)
  {
    if ms != [] {
      MatchesAtIffMarker(s, ms[0].start, ms[0].inner);
      assert ms[0].start != pos;
    }
  }

  /** The text has no match at all exactly when the scanner finds nothing. */
  lemma ScanEmptyIff(s: string)
    ensures Scan(s) == [] <==> forall p :: 0 <= p < |s| ==> !MatchesAt(s, p)
  {
    ScanNoneMissed(s, 0);
    if forall p :: 0 <= p < |s| ==> !MatchesAt(s, p) {
      ScanUnique(s, 0, []);
    }
  }

  /** A text in which no `{` is followed by another `{` has no match. */
  lemma NoOpeningNoMatch(s: string)
    requires forall i :: 0 <= i < |s| - 1 ==> !(s[i] == '{' && s[i + 1] == '{')
    ensures Scan(s) == []
  {
    ScanEmptyIff(s);
  }

  /**
   * Splice the replacement `reps[k]` into `s` in place of the `k`-th match,
   * copying the text between and after the matches (from `pos` on) as it is:
   * what `String.prototype.replace` builds.
   */
  function Splice(s: string, ms: seq<Match>, pos: nat, reps: seq<string>): string
    requires pos <= |s| && WellFormed(s, ms, pos) && |reps| == |ms|
    decreases |ms|
  {
    if ms == [] then s[pos..]
    else
      WellFormedBounds(s, ms, pos);
      s[pos..ms[0].start] + reps[0] + Splice(s, ms[1..], ms[0].end, reps[1..])
  }

  /** The text of each match, delimiters included. */
  function MarkerTexts(ms: seq<Match>): (ts: seq<string>)
    ensures |ts| == |ms|
    ensures forall k :: 0 <= k < |ms| ==> ts[k] == "{{" + ms[k].inner + "}}"
  {
    seq(|ms|, k requires 0 <= k < |ms| => "{{" + ms[k].inner + "}}")
  }

  /**
   * Putting every marker back in its own place gives the text back: Splice
   * changes nothing but the matched markers.
   */
  lemma {:induction false} SpliceMarkersIsIdentity(s: string, ms: seq<Match>, pos: nat)
    requires pos <= |s| && WellFormed(s, ms, pos)
    ensures Splice(s, ms, pos, MarkerTexts(ms)) == s[pos..]
    decreases |ms|
  {
    if ms != [] {
      WellFormedBounds(s, ms, pos);
      var m := ms[0];
      SpliceMarkersIsIdentity(s, ms[1..], m.end);
      assert MarkerTexts(ms)[1..] == MarkerTexts(ms[1..]);
      assert s[m.start..m.end] == "{{" + m.inner + "}}";
      assert s[pos..] == s[pos..m.start] + s[m.start..m.end] + s[m.end..];
    }
  }

  /** `{{}}` has an empty group, which `[^}]+` refuses. */
  lemma EmptyMarkerIsNoMatch()
    ensures Scan("{{}}") == []
  {
    ScanEmptyIff("{{}}");
  }

  /** `{{a}b}}`: the group stops at the first `}`, which is not followed by `}`. */
  lemma EarlyCloseIsNoMatch()
    ensures Scan("{{a}b}}") == []
  {
    ScanEmptyIff("{{a}b}}");
  }

  /** `{{{a}}`: the match starts at the leftmost `{{` and its group is `{a`. */
  lemma ThirdBraceJoinsTheGroup()
    ensures Scan("{{{a}}") == [Match(0, 6, "{a")]
  {
    var s := "{{{a}}";
    MatchesAtIffMarker(s, 0, "{a");
    assert ScanFrom(s, 6) == [];
  }

  /** A text that is exactly one marker has exactly that one match. */
  lemma SingleMarker(w: string)
    requires |w| >= 1 && '}' !in w
    ensures Scan("{{" + w + "}}") == [Match(0, |w| + 4, w)]
  {
    var s := "{{" + w + "}}";
    assert s[0..|w| + 4] == s;
    MatchesAtIffMarker(s, 0, w);
    assert ScanFrom(s, |w| + 4) == [];
  }

  /** Splicing one replacement keeps the text before and after the one match. */
  lemma SpliceOne(s: string, m: Match, r: string)
    requires WellFormed(s, [m], 0)
    ensures m.start <= m.end <= |s| && Splice(s, [m], 0, [r]) == s[..m.start] + r + s[m.end..]
  {
    WellFormedBounds(s, [m], 0);
    assert [m][1..] == [] && [r][1..] == [];
    assert s[0..m.start] == s[..m.start];
  }

  /** Splicing a replacement for a text that is one marker gives the replacement. */
  lemma SpliceWhole(w: string, r: string)
    requires |w| >= 1 && '}' !in w
    ensures var s := "{{" + w + "}}";
      Scan(s) == [Match(0, |s|, w)] && Splice(s, Scan(s), 0, [r]) == r
  {
    var s := "{{" + w + "}}";
    SingleMarker(w);
    SpliceOne(s, Match(0, |s|, w), r);
    assert s[..0] == [] && s[|s|..] == [];
  }

  /** Where a marker stands, the scan from there takes it and goes on after it. */
  lemma ScanTakesMarker(s: string, pos: nat, w: string)
    requires MarkerAt(s, pos, w)
    ensures ScanFrom(s, pos) == [Match(pos, pos + |w| + 4, w)] + ScanFrom(s, pos + |w| + 4)
  {
    MatchesAtIffMarker(s, pos, w);
    var j := CloseIndex(s, pos + 2);
    assert MatchesAt(s, pos) && j == pos + |w| + 2 && s[pos + 2..j] == w;
  }

  /** A marker that ends the text is the last match. */
  lemma LastMarker(s: string, pos: nat, w: string)
    requires MarkerAt(s, pos, w) && pos + |w| + 4 == |s|
    ensures ScanFrom(s, pos) == [Match(pos, |s|, w)]
  {
    ScanTakesMarker(s, pos, w);
    assert ScanFrom(s, |s|) == [];
  }

  /** A text made of two markers, the first ending where the second starts, has exactly those two matches. */
  lemma TwoMarkers(s: string, v: string, w: string)
    requires MarkerAt(s, 0, v) && MarkerAt(s, |v| + 4, w) && |v| + |w| + 8 == |s|
    ensures Scan(s) == [Match(0, |v| + 4, v), Match(|v| + 4, |s|, w)]
  {
    LastMarker(s, |v| + 4, w);
    ScanTakesMarker(s, 0, v);
  }
}
