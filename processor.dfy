/**
 * The placeholder processor of the template engine: `content.replace` with
 * the marker pattern and a callback that turns each match into the value of a
 * built-in, nothing (for a comment) or the value supplied for a variable.
 *
 * The registry of built-ins is a map from a built-in's name to the text it
 * produces in this call; the shipped registry is `DefaultBuiltIns`, whose
 * `year` and `uuid` texts come from the clock and the random generator and
 * are parameters here.
 */
module Processor {
  import opened Options
  import opened Text
  import opened Scanner
  import opened Parser

  /** What the callback does with one capture group. */
  datatype Action = CallBuiltIn(name: string) | Drop | LookUp(name: string)

  /**
   * The branch the callback takes for the capture group `group`.  The tests
   * look at the trimmed group, `__` first and `!` second, as the parser's do;
   * but the names it looks up come from the raw group: the built-in name is
   * the group with its first `__` removed, the variable name is the group up
   * to its first `=`, neither of them trimmed.
   */
  function Decide(group: string): Action {
    if StartsWith(Trim(group), "__") then CallBuiltIn(ReplaceFirst(group, "__", ""))
    else if StartsWith(Trim(group), "!") then Drop
    else LookUp(Split(group, '=')[0])
  }

  /**
   * The text that replaces one marker: the built-in's text, or the empty
   * string when the registry has no such name; the empty string for a
   * comment; the supplied value of the variable, or the empty string when
   * none is supplied (the marker's default text is not used).
   */
  function Replacement(group: string, variables: map<string, string>, builtIns: map<string, string>): string {
    match Decide(group)
    case CallBuiltIn(name) => if name in builtIns then builtIns[name] else ""
    case Drop => ""
    case LookUp(name) => if name in variables then variables[name] else ""
  }

  /** The replacement of every match, in order. */
  function Replacements(ms: seq<Match>, variables: map<string, string>, builtIns: map<string, string>): (reps: seq<string>)
    ensures |reps| == |ms|
    ensures forall k :: 0 <= k < |ms| ==> reps[k] == Replacement(ms[k].inner, variables, builtIns)
  {
    seq(|ms|, k requires 0 <= k < |ms| => Replacement(ms[k].inner, variables, builtIns))
  }

  /** `replacePlaceholders(content, variables, builtIns)`: every match replaced, everything else copied. */
  function ReplacePlaceholders(content: string, variables: map<string, string>, builtIns: map<string, string>): string {
    var ms := Scan(content);
    Splice(content, ms, 0, Replacements(ms, variables, builtIns))
  }

  /** The shipped registry, given the texts its two functions produce in this call. */
  function DefaultBuiltIns(year: string, uuid: string): (m: map<string, string>)
    ensures m.Keys == {"year", "uuid"} && m["year"] == year && m["uuid"] == uuid
  {
    map["year" := year, "uuid" := uuid]
  }

  /** `replacePlaceholders(content, variables)`, with the registry argument left out. */
  function ReplacePlaceholdersDefault(content: string, variables: map<string, string>, year: string, uuid: string): string {
    ReplacePlaceholders(content, variables, DefaultBuiltIns(year, uuid))
  }

  // ---------------------------------------------------------------- structure

  /** A text with no match comes back unchanged. */
  lemma NoMatchUnchanged(content: string, variables: map<string, string>, builtIns: map<string, string>)
    requires forall p :: 0 <= p < |content| ==> !MatchesAt(content, p)
    ensures ReplacePlaceholders(content, variables, builtIns) == content
  {
    ScanEmptyIff(content);
  }

  /**
   * Output that holds no marker is stable: processing it again, with any
   * values and any registry, changes nothing.
   */
  lemma MarkerFreeOutputIsStable(content: string, variables: map<string, string>, builtIns: map<string, string>,
                                 variables': map<string, string>, builtIns': map<string, string>)
    requires var out := ReplacePlaceholders(content, variables, builtIns);
      forall p :: 0 <= p < |out| ==> !MatchesAt(out, p)
    ensures var out := ReplacePlaceholders(content, variables, builtIns);
      ReplacePlaceholders(out, variables', builtIns') == out
  {
    NoMatchUnchanged(ReplacePlaceholders(content, variables, builtIns), variables', builtIns');
  }

  /**
   * The processor changes the text only where the markers are: it splices
   * one replacement per match into the text, and splicing each marker's own
   * text back instead would give the input.
   */
  lemma OnlyMarkersChange(content: string, variables: map<string, string>, builtIns: map<string, string>)
    ensures var ms := Scan(content);
      && ReplacePlaceholders(content, variables, builtIns) == Splice(content, ms, 0, Replacements(ms, variables, builtIns))
      && Splice(content, ms, 0, MarkerTexts(ms)) == content
  {
    SpliceMarkersIsIdentity(content, Scan(content), 0);
  }

  /**
   * A text that is one marker between two stretches without `{` is
   * processed into the first stretch, the marker's replacement and the
   * second stretch.  The replacement is inserted as it is, never scanned for
   * markers itself.
   */
  lemma OneMarker(pre: string, w: string, post: string, variables: map<string, string>, builtIns: map<string, string>)
    requires '{' !in pre && '{' !in post && |w| >= 1 && '}' !in w
    ensures Scan(pre + "{{" + w + "}}" + post) == [Match(|pre|, |pre| + |w| + 4, w)]
    ensures ReplacePlaceholders(pre + "{{" + w + "}}" + post, variables, builtIns)
              == pre + Replacement(w, variables, builtIns) + post
  {
    var s := pre + "{{" + w + "}}" + post;
    var m := Match(|pre|, |pre| + |w| + 4, w);
    ScanOneMarker(pre, w, post);
    var r := Replacement(w, variables, builtIns);
    assert Replacements([m], variables, builtIns) == [r];
    SpliceOne(s, m, r);
    Surroundings(pre, w, post);
  }

  /** The scan of one marker between two stretches without `{`. */
  lemma ScanOneMarker(pre: string, w: string, post: string)
    requires '{' !in pre && '{' !in post && |w| >= 1 && '}' !in w
    ensures var s := pre + "{{" + w + "}}" + post;
      && Scan(s) == [Match(|pre|, |pre| + |w| + 4, w)]
      && WellFormed(s, [Match(|pre|, |pre| + |w| + 4, w)], 0)
  {
    var s := pre + "{{" + w + "}}" + post;
    var e := |pre| + |w| + 4;
    var m := Match(|pre|, e, w);
    assert s[|pre|..e] == "{{" + w + "}}";
    assert MarkerAt(s, |pre|, w);
    assert WellFormed(s, [m], 0) by {
      assert [m][1..] == [];
    }
    forall p | 0 <= p < |pre| ensures !MatchesAt(s, p) {
      assert s[p] == pre[p];
    }
    forall p | e <= p < |s| ensures !MatchesAt(s, p) {
      assert s[p] == post[p - e];
    }
    assert NoneMissed(s, [m], 0) by {
      assert [m][1..] == [];
    }
    ScanUnique(s, 0, [m]);
  }

  /** The stretches around the marker. */
  lemma Surroundings(pre: string, w: string, post: string)
    ensures var s := pre + "{{" + w + "}}" + post;
      s[..|pre|] == pre && s[|pre| + |w| + 4..] == post
  {
  }

  /** A text that is one marker is processed into that marker's replacement, as written and with the corrected lookup. */
  lemma MarkerAlone(w: string, variables: map<string, string>, builtIns: map<string, string>)
    requires |w| >= 1 && '}' !in w
    ensures ReplacePlaceholders("{{" + w + "}}", variables, builtIns) == Replacement(w, variables, builtIns)
    ensures ReplacePlaceholdersByKey("{{" + w + "}}", variables, builtIns) == Fill(Classify(w), variables, builtIns)
  {
    var s := "{{" + w + "}}";
    var m := Match(0, |s|, w);
    SpliceWhole(w, Replacement(w, variables, builtIns));
    SpliceWhole(w, Fill(Classify(w), variables, builtIns));
    assert Replacements([m], variables, builtIns) == [Replacement(w, variables, builtIns)];
    assert FillAll(GetPlaceholders(s), variables, builtIns) == [Fill(Classify(w), variables, builtIns)];
  }

  // ------------------------------------------------ agreement with the parser

  /** The processor classifies every group as the parser does. */
  lemma KindsAgree(group: string)
    ensures Decide(group).CallBuiltIn? <==> Classify(group).kind == BuiltIn
    ensures Decide(group).Drop? <==> Classify(group).kind == Comment
    ensures Decide(group).LookUp? <==> Classify(group).kind == Variable
  {
  }

  /** The first `__` of a group whose trimmed text starts with `__` stands right after the leading whitespace. */
  lemma FirstUnderscoresAfterLeadingWs(group: string)
    requires StartsWith(Trim(group), "__")
    ensures Find(group, "__") == Some(LeadingWs(group))
  {
    var t := Trim(group);
    var a := LeadingWs(group);
    TrimIsInfix(group);
    SliceOfSlice(group, a, a + |t|, 0, 2);
    assert t[0..2] == t[..2];
    assert OccursAt(group, "__", a);
    forall j | 0 <= j < a ensures !OccursAt(group, "__", j) {
      assert IsWs(group[j]);
      if j + 2 <= |group| {
        assert group[j..j + 2][0] == group[j];
      }
    }
    FindFromIs(group, "__", 0, a);
  }

  /**
   * The built-in name the processor looks up is the parser's key with the
   * group's surrounding whitespace put back: the first `__` of the raw group
   * is the one that starts its trimmed text.
   */
  lemma BuiltInNameIsUntrimmedKey(group: string)
    requires Decide(group).CallBuiltIn?
    ensures var a := LeadingWs(group);
      a + |Trim(group)| <= |group| &&
      Decide(group).name == group[..a] + Classify(group).key + group[a + |Trim(group)|..]
  {
    RemoveUnderscores(group);
  }

  /** Removing the first `__` of a group whose trimmed text starts with `__` keeps the whitespace around that text. */
  lemma RemoveUnderscores(group: string)
    requires StartsWith(Trim(group), "__")
    ensures var a := LeadingWs(group);
      a + |Trim(group)| <= |group| &&
      ReplaceFirst(group, "__", "") == group[..a] + Trim(group)[2..] + group[a + |Trim(group)|..]
  {
    FirstUnderscoresAfterLeadingWs(group);
    TrimIsInfix(group);
    RemoveFirstInInfix(group, "__", LeadingWs(group), Trim(group));
  }

  /**
   * The variable name the processor looks up, trimmed, is the parser's key:
   * the leading whitespace holds no `=`, so the first `=` of the group is the
   * first `=` of its trimmed text, and the two names differ only by the
   * whitespace around the text before it.
   */
  lemma VariableNameTrimsToKey(group: string)
    requires Decide(group).LookUp?
    ensures Trim(Decide(group).name) == Classify(group).key
  {
    SplitFirst(group, '=');
    ClassifyVariable(group);
    TrimBeforeFirst(group, '=');
  }

  /**
   * The whitespace around a plain variable name reaches the processor's
   * lookup: it asks for the padded name, while the parser's key is the bare
   * name.
   */
  lemma PaddedNameKeysDiffer(lead: string, w: string, trail: string)
    requires AllWs(lead) && AllWs(trail) && w != [] && Trimmed(w) && '=' !in w
    requires !StartsWith(w, "__") && !StartsWith(w, "!")
    ensures Classify(lead + w + trail).key == w
    ensures Decide(lead + w + trail) == LookUp(lead + w + trail)
  {
    var g := lead + w + trail;
    TrimUnique(lead, w, trail);
    ClassifyIgnoresPadding(g);
    NameIsVariable(w);
    assert '=' !in lead by { assert !IsWs('='); }
    assert '=' !in trail by { assert !IsWs('='); }
    assert '=' !in g;
    SplitWithoutSeparator(g, '=');
  }

  /** `{{ name }}`: the processor asks for ` name `, the parser says `name`. */
  lemma PaddedGroupKeysDiffer()
    ensures Classify(" " + "name" + " ").key == "name"
    ensures Decide(" " + "name" + " ") == LookUp(" " + "name" + " ")
  {
    assert "name"[..2][0] == 'n' && "name"[..1][0] == 'n';
    PaddedNameKeysDiffer(" ", "name", " ");
  }

  /** A group that is a bare name (no padding, no `=`, no `__` or `!` prefix) is looked up as it is. */
  lemma DecidePlainName(w: string)
    requires w != [] && Trimmed(w) && '=' !in w
    requires !StartsWith(w, "__") && !StartsWith(w, "!")
    ensures Decide(w) == LookUp(w)
  {
    PaddedNameKeysDiffer([], w, []);
    assert [] + w + [] == w;
  }

  /** A group with no padding that starts with `__` calls the built-in named by the rest. */
  lemma DecideBuiltIn(name: string)
    requires Trimmed("__" + name)
    ensures Decide("__" + name) == CallBuiltIn(name)
  {
    var g := "__" + name;
    TrimmedIsFixed(g);
    assert g[..2] == "__";
    BuiltInNameIsUntrimmedKey(g);
    assert g[..0] == [] && g[|g|..] == [];
  }

  /** A group with no padding that starts with `!` (and not `__`) is dropped. */
  lemma DecideComment(text: string)
    requires Trimmed("!" + text)
    ensures Decide("!" + text) == Drop
  {
    var g := "!" + text;
    TrimmedIsFixed(g);
    assert g[..1] == "!";
    assert |g| >= 2 ==> g[..2][0] == '!';
  }

  /** One bare-name marker between stretches without `{` renders as the value supplied for that name, or nothing. */
  lemma RenderName(pre: string, w: string, post: string, variables: map<string, string>, builtIns: map<string, string>)
    requires '{' !in pre && '{' !in post && '}' !in w
    requires w != [] && Trimmed(w) && '=' !in w && !StartsWith(w, "__") && !StartsWith(w, "!")
    ensures ReplacePlaceholders(pre + "{{" + w + "}}" + post, variables, builtIns)
              == pre + (if w in variables then variables[w] else "") + post
  {
    DecidePlainName(w);
    OneMarker(pre, w, post, variables, builtIns);
  }

  /** One unpadded built-in marker between stretches without `{` renders as the registry's text for the name, or nothing. */
  lemma RenderBuiltIn(pre: string, name: string, post: string, variables: map<string, string>, builtIns: map<string, string>)
    requires '{' !in pre && '{' !in post && '}' !in name && Trimmed("__" + name)
    ensures ReplacePlaceholders(pre + "{{" + ("__" + name) + "}}" + post, variables, builtIns)
              == pre + (if name in builtIns then builtIns[name] else "") + post
  {
    DecideBuiltIn(name);
    OneMarker(pre, "__" + name, post, variables, builtIns);
  }

  /** One unpadded comment marker between stretches without `{` leaves only the two stretches. */
  lemma RenderComment(pre: string, text: string, post: string, variables: map<string, string>, builtIns: map<string, string>)
    requires '{' !in pre && '{' !in post && '}' !in text && Trimmed("!" + text)
    ensures ReplacePlaceholders(pre + "{{" + ("!" + text) + "}}" + post, variables, builtIns) == pre + post
  {
    DecideComment(text);
    OneMarker(pre, "!" + text, post, variables, builtIns);
  }

  /** One variable marker between stretches without `{`, with no values supplied, leaves only the two stretches. */
  lemma RenderUnanswered(pre: string, w: string, post: string, builtIns: map<string, string>)
    requires '{' !in pre && '{' !in post && |w| >= 1 && '}' !in w
    requires !StartsWith(Trim(w), "__") && !StartsWith(Trim(w), "!")
    ensures ReplacePlaceholders(pre + "{{" + w + "}}" + post, map[], builtIns) == pre + post
  {
    OneMarker(pre, w, post, map[], builtIns);
  }

  // ----------------------------------------------------------------- examples

  // The literal is split around its braces so that the verifier does not unroll it character by character.
  /** `Hi {{name}}!` with `name` answered `Ann` becomes `Hi Ann!`. */
  lemma HelloName(builtIns: map<string, string>)
    ensures ReplacePlaceholders("Hi " + "{{" + "name" + "}}" + "!", map["name" := "Ann"], builtIns) == "Hi Ann!"
  {
    assert "name"[..2][0] == 'n' && "name"[..1][0] == 'n';
    RenderName("Hi ", "name", "!", map["name" := "Ann"], builtIns);
  }

  // The literal is split around its braces so that the verifier does not unroll it character by character.
  /** A comment marker leaves nothing behind. */
  lemma CommentDropped(variables: map<string, string>, builtIns: map<string, string>)
    ensures ReplacePlaceholders("" + "{{" + ("!" + "drop this") + "}}" + "kept", variables, builtIns) == "kept"
  {
    RenderComment("", "drop this", "kept", variables, builtIns);
  }

  // The literal is split around its braces so that the verifier does not unroll it character by character.
  /** `Year: {{__year}}` with the shipped registry becomes `Year: ` and the year's text. */
  lemma YearBuiltIn(variables: map<string, string>, year: string, uuid: string)
    ensures ReplacePlaceholdersDefault("Year: " + "{{" + ("__" + "year") + "}}" + "", variables, year, uuid) == "Year: " + year
  {
    RenderBuiltIn("Year: ", "year", "", variables, DefaultBuiltIns(year, uuid));
  }

  // The literal is split around its braces so that the verifier does not unroll it character by character.
  /** With no answer, the processor does not fall back on the marker's default: `Hi {{name=World}}!` becomes `Hi !`. */
  lemma DefaultNotApplied(builtIns: map<string, string>)
    ensures ReplacePlaceholders("Hi " + "{{" + "name=World" + "}}" + "!", map[], builtIns) == "Hi !"
  {
    var g := "name=World";
    TrimmedIsFixed(g);
    assert g[..2][0] == 'n' && g[..1][0] == 'n';
    RenderUnanswered("Hi ", g, "!", builtIns);
  }

  // The literal is split around its braces so that the verifier does not unroll it character by character.
  /** An answer that looks like a marker is inserted as it is, not processed again. */
  lemma AnswerNotRescanned(builtIns: map<string, string>)
    ensures ReplacePlaceholders("" + "{{" + "a" + "}}" + "", map["a" := "{{x}}"], builtIns) == "{{x}}"
  {
    RenderName("", "a", "", map["a" := "{{x}}"], builtIns);
  }

  // ------------------------------------------------ lookup by the parser's key

  /**
   * The text for one placeholder as the parser reports it: the registry's
   * text for a built-in's key, nothing for a comment, the value supplied for
   * a variable's key.  This is the lookup the processor evidently intends:
   * the answers it receives are keyed by the parser's keys.
   */
  function Fill(p: Placeholder, variables: map<string, string>, builtIns: map<string, string>): string {
    match p.kind
    case BuiltIn => if p.key in builtIns then builtIns[p.key] else ""
    case Comment => ""
    case Variable => if p.key in variables then variables[p.key] else ""
  }

  /** The text for each placeholder, in order. */
  function FillAll(ps: seq<Placeholder>, variables: map<string, string>, builtIns: map<string, string>): (reps: seq<string>)
    ensures |reps| == |ps|
    ensures forall k :: 0 <= k < |ps| ==> reps[k] == Fill(ps[k], variables, builtIns)
  {
    seq(|ps|, k requires 0 <= k < |ps| => Fill(ps[k], variables, builtIns))
  }

  /** The processor with the corrected lookup: each marker replaced by the text for the placeholder the parser reports for it. */
  function ReplacePlaceholdersByKey(content: string, variables: map<string, string>, builtIns: map<string, string>): string {
    Splice(content, Scan(content), 0, FillAll(GetPlaceholders(content), variables, builtIns))
  }

  /**
   * A group is tight when the names the processor looks up are the parser's
   * keys: no whitespace around the group, nor around a variable's name.
   */
  predicate Tight(group: string) {
    Trimmed(group) && (Decide(group).LookUp? ==> Trimmed(Decide(group).name))
  }

  /** On a tight group the processor as written and the corrected lookup agree. */
  lemma TightGroupAgrees(group: string, variables: map<string, string>, builtIns: map<string, string>)
    requires Tight(group)
    ensures Replacement(group, variables, builtIns) == Fill(Classify(group), variables, builtIns)
  {
    KindsAgree(group);
    TrimmedIsFixed(group);
    if Decide(group).CallBuiltIn? {
      BuiltInNameIsUntrimmedKey(group);
      assert LeadingWs(group) == 0 by {
        assert !IsWs(group[0]);
      }
      assert group[..0] == [] && group[|group|..] == [];
      assert Decide(group).name == Classify(group).key;
    } else if Decide(group).LookUp? {
      VariableNameTrimsToKey(group);
      TrimmedIsFixed(Decide(group).name);
    }
  }

  /** When every group of the text is tight, the processor as written and the corrected one give the same text. */
  lemma TightTextAgrees(content: string, variables: map<string, string>, builtIns: map<string, string>)
    requires forall m :: m in Scan(content) ==> Tight(m.inner)
    ensures ReplacePlaceholders(content, variables, builtIns) == ReplacePlaceholdersByKey(content, variables, builtIns)
  {
    var ms := Scan(content);
    var ps := GetPlaceholders(content);
    forall k | 0 <= k < |ms|
      ensures Replacements(ms, variables, builtIns)[k] == FillAll(ps, variables, builtIns)[k]
    {
      assert ms[k] in ms;
      TightGroupAgrees(ms[k].inner, variables, builtIns);
    }
    assert Replacements(ms, variables, builtIns) == FillAll(ps, variables, builtIns);
  }

  /** The corrected processor ignores the whitespace around a group, as the parser does. */
  lemma FillIgnoresPadding(lead: string, group: string, trail: string, variables: map<string, string>, builtIns: map<string, string>)
    requires AllWs(lead) && AllWs(trail)
    ensures Fill(Classify(lead + group + trail), variables, builtIns) == Fill(Classify(group), variables, builtIns)
  {
    ClassifyIgnoresPadding(lead + group + trail);
    ClassifyIgnoresPadding(group);
    TrimIgnoresPadding(lead, group, trail);
  }

  /**
   * As written, padding around a variable name loses its answer: the
   * processor asks for the padded name, the answer is stored under the bare
   * name, and the marker renders as nothing.  The corrected lookup finds it.
   */
  lemma PaddedNameLosesAnswer(lead: string, w: string, trail: string, answer: string, builtIns: map<string, string>)
    requires AllWs(lead) && AllWs(trail) && lead + trail != []
    requires w != [] && Trimmed(w) && '=' !in w && !StartsWith(w, "__") && !StartsWith(w, "!")
    ensures Replacement(lead + w + trail, map[w := answer], builtIns) == ""
    ensures Fill(Classify(lead + w + trail), map[w := answer], builtIns) == answer
  {
    var g := lead + w + trail;
    PaddedNameKeysDiffer(lead, w, trail);
    KindsAgree(g);
    assert g != w by {
      assert |g| > |w|;
    }
    ReplacementOfLookUp(g, g, map[w := answer], builtIns);
    FillOfVariable(Classify(g), map[w := answer], builtIns);
  }

  /** The replacement of a group the processor looks up under `name`. */
  lemma ReplacementOfLookUp(group: string, name: string, variables: map<string, string>, builtIns: map<string, string>)
    requires Decide(group) == LookUp(name)
    ensures Replacement(group, variables, builtIns) == if name in variables then variables[name] else ""
  {
  }

  /** The corrected text for a variable placeholder. */
  lemma FillOfVariable(p: Placeholder, variables: map<string, string>, builtIns: map<string, string>)
    requires p.kind == Variable
    ensures Fill(p, variables, builtIns) == if p.key in variables then variables[p.key] else ""
  {
  }

  /**
   * As written, padding around a built-in marker loses the built-in: the
   * processor asks the registry for the name with the padding kept.  The
   * corrected lookup finds it.
   */
  lemma PaddedBuiltInLost(lead: string, name: string, trail: string, variables: map<string, string>, builtIns: map<string, string>)
    requires AllWs(lead) && AllWs(trail) && lead + trail != [] && Trimmed("__" + name)
    requires name in builtIns && lead + name + trail !in builtIns
    ensures Replacement(lead + ("__" + name) + trail, variables, builtIns) == ""
    ensures Fill(Classify(lead + ("__" + name) + trail), variables, builtIns) == builtIns[name]
  {
    var t := "__" + name;
    var g := lead + t + trail;
    TrimUnique(lead, t, trail);
    assert t[..2] == "__";
    BuiltInNameIsUntrimmedKey(g);
    assert LeadingWs(g) == |lead| by {
      forall i | 0 <= i < |lead| ensures IsWs(g[i]) { assert g[i] == lead[i]; }
      assert g[|lead|] == t[0];
      LeadingWsIs(g, |lead|);
    }
    assert g[..|lead|] == lead && g[|lead| + |t|..] == trail;
    assert Decide(g).name == lead + name + trail;
  }

  /** The corrected processor on one marker between stretches without `{`. */
  lemma OneMarkerByKey(pre: string, w: string, post: string, variables: map<string, string>, builtIns: map<string, string>)
    requires '{' !in pre && '{' !in post && |w| >= 1 && '}' !in w
    ensures ReplacePlaceholdersByKey(pre + "{{" + w + "}}" + post, variables, builtIns)
              == pre + Fill(Classify(w), variables, builtIns) + post
  {
    var s := pre + "{{" + w + "}}" + post;
    var m := Match(|pre|, |pre| + |w| + 4, w);
    ScanOneMarker(pre, w, post);
    var r := Fill(Classify(w), variables, builtIns);
    assert FillAll(GetPlaceholders(s), variables, builtIns) == [r];
    SpliceOne(s, m, r);
    Surroundings(pre, w, post);
  }

  /** A padded name marker alone: nothing as written, the answer with the corrected lookup. */
  lemma PaddedNameMarker(lead: string, w: string, trail: string, answer: string, builtIns: map<string, string>)
    requires AllWs(lead) && AllWs(trail) && lead + trail != []
    requires w != [] && Trimmed(w) && '=' !in w && !StartsWith(w, "__") && !StartsWith(w, "!")
    requires '}' !in lead && '}' !in w && '}' !in trail
    ensures ReplacePlaceholders("{{" + (lead + w + trail) + "}}", map[w := answer], builtIns) == ""
    ensures ReplacePlaceholdersByKey("{{" + (lead + w + trail) + "}}", map[w := answer], builtIns) == answer
  {
    var g := lead + w + trail;
    PaddedNameLosesAnswer(lead, w, trail, answer, builtIns);
    MarkerAlone(g, map[w := answer], builtIns);
  }

  // The literal is split around its braces so that the verifier does not unroll it character by character.
  /** `{{ name }}` with `name` answered `Ann`: nothing as written, `Ann` with the corrected lookup. */
  lemma PaddedVariableExample(builtIns: map<string, string>)
    ensures ReplacePlaceholders("{{" + (" " + "name" + " ") + "}}", map["name" := "Ann"], builtIns) == ""
    ensures ReplacePlaceholdersByKey("{{" + (" " + "name" + " ") + "}}", map["name" := "Ann"], builtIns) == "Ann"
  {
    assert "name"[..2][0] == 'n' && "name"[..1][0] == 'n';
    PaddedNameMarker(" ", "name", " ", "Ann", builtIns);
  }

  /** A padded built-in marker alone: nothing as written, the registry's text with the corrected lookup. */
  lemma PaddedBuiltInMarker(lead: string, name: string, trail: string, variables: map<string, string>, builtIns: map<string, string>)
    requires AllWs(lead) && AllWs(trail) && lead + trail != [] && Trimmed("__" + name)
    requires '}' !in lead && '}' !in name && '}' !in trail
    requires name in builtIns && lead + name + trail !in builtIns
    ensures ReplacePlaceholders("{{" + (lead + ("__" + name) + trail) + "}}", variables, builtIns) == ""
    ensures ReplacePlaceholdersByKey("{{" + (lead + ("__" + name) + trail) + "}}", variables, builtIns) == builtIns[name]
  {
    var w := lead + ("__" + name) + trail;
    PaddedBuiltInLost(lead, name, trail, variables, builtIns);
    MarkerAlone(w, variables, builtIns);
  }

  // The literal is split around its braces so that the verifier does not unroll it character by character.
  /** `{{ __year }}` with the shipped registry: nothing as written, the year with the corrected lookup. */
  lemma PaddedYearExample(variables: map<string, string>, year: string, uuid: string)
    ensures ReplacePlaceholdersDefault("{{" + (" " + ("__" + "year") + " ") + "}}", variables, year, uuid) == ""
    ensures ReplacePlaceholdersByKey("{{" + (" " + ("__" + "year") + " ") + "}}", variables, DefaultBuiltIns(year, uuid)) == year
  {
    var b := DefaultBuiltIns(year, uuid);
    assert " " + "year" + " " !in b by {
      assert |" " + "year" + " "| == 6;
    }
    PaddedBuiltInMarker(" ", "year", " ", variables, b);
  }
}
