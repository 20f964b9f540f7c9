/**
 * The placeholder parser of the template engine: every `{{...}}` marker of a
 * template becomes one classified placeholder, in the order of the text.
 */
module Parser {
  import opened Options
  import opened Text
  import opened Scanner

  /** The kinds of placeholder. */
  datatype Type = Variable | BuiltIn | Comment

  /**
   * A classified marker: its kind, its key (the variable or built-in name, or
   * the comment text) and, for variables only, the default offered when the
   * user is asked for a value.
   */
  datatype Placeholder = Placeholder(kind: Type, key: string, defaultValue: Option<string>)

  /**
   * The placeholder for the capture group `group` of one match.  The group is
   * trimmed; a leading `__` makes a built-in and a leading `!` a comment
   * (checked in that order), and the prefix is cut off without trimming again;
   * anything else is a variable, split at every `=`: the trimmed first part
   * is the key, the trimmed second part (or the empty string when there is no
   * `=`) is the default, and any further part is dropped.
   */
  function Classify(group: string): Placeholder {
    var inner := Trim(group);
    if StartsWith(inner, "__") then Placeholder(BuiltIn, inner[2..], None)
    else if StartsWith(inner, "!") then Placeholder(Comment, inner[1..], None)
    else
      var parts := Split(inner, '=');
      Placeholder(Variable, Trim(parts[0]), Some(if |parts| >= 2 then Trim(parts[1]) else ""))
  }

  /** The placeholders of a template: one per match, in the order of the text, duplicates kept. */
  function GetPlaceholders(content: string): (ps: seq<Placeholder>)
    ensures |ps| == |Scan(content)|
    ensures forall k :: 0 <= k < |ps| ==> ps[k] == Classify(Scan(content)[k].inner)
  {
    var ms := Scan(content);
    seq(|ms|, k requires 0 <= k < |ms| => Classify(ms[k].inner))
  }

  /** A group whose trimmed text starts with `__` is a built-in named by the rest of the trimmed text, with no default. */
  lemma ClassifyBuiltIn(group: string)
    ensures Classify(group).kind == BuiltIn <==> StartsWith(Trim(group), "__")
    ensures Classify(group).kind == BuiltIn ==>
              Trim(group) == "__" + Classify(group).key && Classify(group).defaultValue == None
  {
    var t := Trim(group);
    if StartsWith(t, "__") {
      assert t == t[..2] + t[2..];
    }
  }

  /**
   * A group whose trimmed text starts with `!` but not with `__` is a comment
   * holding the rest of the trimmed text, with no default.
   */
  lemma ClassifyComment(group: string)
    ensures Classify(group).kind == Comment <==>
              !StartsWith(Trim(group), "__") && StartsWith(Trim(group), "!")
    ensures Classify(group).kind == Comment ==>
              Trim(group) == "!" + Classify(group).key && Classify(group).defaultValue == None
  {
    var t := Trim(group);
    if !StartsWith(t, "__") && StartsWith(t, "!") {
      assert t == t[..1] + t[1..];
    }
  }

  /**
   * Any other group is a variable.  With `t` its trimmed text and `i` the
   * index of the first `=` in `t`, the key is the trimmed text before `i`;
   * the default is the trimmed text between the first and the second `=`
   * (or up to the end), and the empty string when `t` has no `=`.
   */
  lemma ClassifyVariable(group: string)
    ensures Classify(group).kind == Variable <==>
              !StartsWith(Trim(group), "__") && !StartsWith(Trim(group), "!")
    ensures Classify(group).kind == Variable ==>
              var t := Trim(group);
              var i := IndexOfChar(t, '=');
              && Classify(group).key == Trim(t[..i])
              && Classify(group).defaultValue ==
                   Some(if i < |t| then Trim(t[i + 1..][..IndexOfChar(t[i + 1..], '=')]) else "")
  {
    var t := Trim(group);
    if !StartsWith(t, "__") && !StartsWith(t, "!") {
      var parts := Split(t, '=');
      SplitFirst(t, '=');
      var i := IndexOfChar(t, '=');
      if i < |t| {
        assert parts[1..] == Split(t[i + 1..], '=');
        SplitFirst(t[i + 1..], '=');
      }
    }
  }

  /** Only variables have a default, and every variable has one (possibly empty). */
  lemma DefaultOnlyForVariables(group: string)
    ensures Classify(group).defaultValue.Some? <==> Classify(group).kind == Variable
  {
  }

  /**
   * A variable's key and default hold no `=` (so text after a second `=` is
   * lost) and neither starts nor ends with whitespace.
   */
  lemma VariableKeyAndDefaultShape(group: string)
    requires Classify(group).kind == Variable
    ensures '=' !in Classify(group).key && Trimmed(Classify(group).key)
    ensures '=' !in Classify(group).defaultValue.value && Trimmed(Classify(group).defaultValue.value)
  {
    var t := Trim(group);
    var parts := Split(t, '=');
    assert !StartsWith(t, "__") && !StartsWith(t, "!");
    assert Classify(group) == Placeholder(Variable, Trim(parts[0]), Some(if |parts| >= 2 then Trim(parts[1]) else ""));
    TrimKeepsOut(parts[0], '=');
    if |parts| >= 2 {
      TrimKeepsOut(parts[1], '=');
    }
  }

  /** No marker, no placeholder; and a template with a marker has a placeholder. */
  lemma NoMarkerNoPlaceholder(content: string)
    ensures GetPlaceholders(content) == [] <==> forall p :: 0 <= p < |content| ==> !MatchesAt(content, p)
  {
    ScanEmptyIff(content);
  }

  /** A trimmed group with no `=` and no `__` or `!` prefix is the variable it names, with the empty default. */
  lemma NameIsVariable(w: string)
    requires Trimmed(w) && '=' !in w && !StartsWith(w, "__") && !StartsWith(w, "!")
    ensures Classify(w) == Placeholder(Variable, w, Some(""))
  {
    TrimmedIsFixed(w);
    SplitWithoutSeparator(w, '=');
  }

  /** `{{w}}`, for a name `w` as in NameIsVariable without `}`, is the variable `w` with the empty default. */
  lemma NameMarker(w: string)
    requires w != [] && Trimmed(w) && '=' !in w && '}' !in w && !StartsWith(w, "__") && !StartsWith(w, "!")
    ensures GetPlaceholders("{{" + w + "}}") == [Placeholder(Variable, w, Some(""))]
  {
    SingleMarker(w);
    NameIsVariable(w);
  }

  // The literal is split around its braces so that the verifier does not unroll it character by character.
  /** `{{foo}}` is the variable `foo` with the empty default. */
  lemma PlainVariable()
    ensures GetPlaceholders("{{" + "foo" + "}}") == [Placeholder(Variable, "foo", Some(""))]
  {
    assert "foo"[..2][0] == 'f' && "foo"[..1][0] == 'f';
    NameMarker("foo");
  }

  /** `k=d`, for a key and a default without `=` or surrounding whitespace, classifies as the variable `k` with default `d`. */
  lemma ClassifyKeyDefault(k: string, d: string)
    requires k != [] && d != [] && Trimmed(k) && Trimmed(d) && '=' !in k && '=' !in d
    requires !StartsWith(k, "__") && !StartsWith(k, "!")
    ensures Classify(k + "=" + d) == Placeholder(Variable, k, Some(d))
  {
    var w := k + "=" + d;
    assert w[0] == k[0] && w[|w| - 1] == d[|d| - 1];
    TrimmedIsFixed(w);
    assert !StartsWith(w, "__") by {
      if |k| >= 2 { assert w[..2] == k[..2]; } else { assert w[..2][1] == '='; }
    }
    assert w[..1] == k[..1];
    SplitJoin([k, d], '=');
    assert Join([k, d], '=') == w;
    TrimmedIsFixed(k);
    TrimmedIsFixed(d);
  }

  /** `{{k=d}}`, for a key and a default without `=`, `}` or surrounding whitespace, is the variable `k` with default `d`. */
  lemma VariableWithDefault(k: string, d: string)
    requires k != [] && d != [] && Trimmed(k) && Trimmed(d)
    requires '=' !in k && '=' !in d && '}' !in k && '}' !in d
    requires !StartsWith(k, "__") && !StartsWith(k, "!")
    ensures GetPlaceholders("{{" + k + "=" + d + "}}") == [Placeholder(Variable, k, Some(d))]
  {
    var w := k + "=" + d;
    assert "{{" + k + "=" + d + "}}" == "{{" + w + "}}";
    assert '}' !in w;
    SingleMarker(w);
    ClassifyKeyDefault(k, d);
  }

  // The literal is split around its braces so that the verifier does not unroll it character by character.
  /** `{{foo=bar}}` is the variable `foo` with default `bar`. */
  lemma VariableFooBar()
    ensures GetPlaceholders("{{" + "foo" + "=" + "bar" + "}}") == [Placeholder(Variable, "foo", Some("bar"))]
  {
    var k, d := "foo", "bar";
    assert k[..2][0] == 'f' && k[..1][0] == 'f';
    assert !IsWs(k[0]) && !IsWs(k[2]) && !IsWs(d[0]) && !IsWs(d[2]);
    VariableWithDefault(k, d);
  }

  /** `__name`, when it does not end in whitespace, classifies as the built-in `name`. */
  lemma ClassifyBuiltInName(name: string)
    requires Trimmed("__" + name)
    ensures Classify("__" + name) == Placeholder(BuiltIn, name, None)
  {
    var w := "__" + name;
    TrimmedIsFixed(w);
    assert w[..2] == "__" && w[2..] == name;
  }

  /** `{{__name}}`, for a name without `}` that does not end in whitespace, is the built-in `name`. */
  lemma BuiltInMarker(name: string)
    requires '}' !in name && Trimmed("__" + name)
    ensures GetPlaceholders("{{__" + name + "}}") == [Placeholder(BuiltIn, name, None)]
  {
    var w := "__" + name;
    assert "{{__" + name + "}}" == "{{" + w + "}}";
    assert '}' !in w;
    SingleMarker(w);
    ClassifyBuiltInName(name);
  }

  /** `{{__uuid}}` is the built-in `uuid`. */
  lemma BuiltInUuid()
    ensures GetPlaceholders("{{__" + "uuid" + "}}") == [Placeholder(BuiltIn, "uuid", None)]
  {
    BuiltInMarker("uuid");
  }

  /** `{{__!x}}`: the `__` test comes first, so this is the built-in `!x`, not a comment. */
  lemma BuiltInBeforeComment()
    ensures GetPlaceholders("{{__" + "!x" + "}}") == [Placeholder(BuiltIn, "!x", None)]
  {
    BuiltInMarker("!x");
  }

  /** `{{__ x}}`: the name after `__` is not trimmed again, so the key keeps its space. */
  lemma BuiltInKeyNotRetrimmed()
    ensures GetPlaceholders("{{__" + " x" + "}}") == [Placeholder(BuiltIn, " x", None)]
  {
    BuiltInMarker(" x");
  }

  /** `!text`, when it does not end in whitespace, classifies as the comment `text`. */
  lemma ClassifyCommentText(text: string)
    requires Trimmed("!" + text)
    ensures Classify("!" + text) == Placeholder(Comment, text, None)
  {
    var w := "!" + text;
    TrimmedIsFixed(w);
    assert w[..1] == "!" && w[1..] == text;
    assert |w| >= 2 ==> w[..2][0] == '!';
  }

  /** `{{!text}}`, for a text without `}` that does not end in whitespace, is the comment `text`. */
  lemma CommentMarker(text: string)
    requires '}' !in text && Trimmed("!" + text)
    ensures GetPlaceholders("{{!" + text + "}}") == [Placeholder(Comment, text, None)]
  {
    var w := "!" + text;
    assert "{{!" + text + "}}" == "{{" + w + "}}";
    assert '}' !in w;
    SingleMarker(w);
    ClassifyCommentText(text);
  }

  /** `{{!note}}` is the comment `note`. */
  lemma CommentNote()
    ensures GetPlaceholders("{{!" + "note" + "}}") == [Placeholder(Comment, "note", None)]
  {
    CommentMarker("note");
  }

  /** A key that is neither built-in nor comment stays so when an `=` and more text follow it. */
  lemma KeyThenEquals(k: string, tail: string)
    requires k != [] && !StartsWith(k, "__") && !StartsWith(k, "!")
    requires tail != [] && tail[0] == '='
    ensures !StartsWith(k + tail, "__") && !StartsWith(k + tail, "!")
  {
    var t := k + tail;
    if |k| >= 2 { assert t[..2] == k[..2]; } else { assert t[..2][1] == '='; }
    assert t[..1] == k[..1];
  }

  /** The first two parts of `k=d=rest` are `k` and `d`. */
  lemma SplitTwoSeparators(k: string, d: string, rest: string)
    requires '=' !in k && '=' !in d
    ensures var parts := Split(k + "=" + d + "=" + rest, '=');
      |parts| >= 2 && parts[0] == k && parts[1] == d
  {
    var u := d + "=" + rest;
    var t := k + "=" + u;
    assert t == k + "=" + d + "=" + rest;
    IndexOfCharAfter(k, '=', u);
    assert t[..|k|] == k && t[|k| + 1..] == u;
    IndexOfCharAfter(d, '=', rest);
    assert u[..|d|] == d;
    assert Split(t, '=') == [k] + Split(u, '=');
    SplitFirst(u, '=');
  }

  /** A variable's default ends at the second `=`: `k=d=rest` has default `d`, and `rest` is lost. */
  lemma DefaultStopsAtSecondEquals(k: string, d: string, rest: string)
    requires k != [] && d != [] && rest != [] && Trimmed(k) && Trimmed(d) && Trimmed(rest)
    requires '=' !in k && '=' !in d
    requires !StartsWith(k, "__") && !StartsWith(k, "!")
    ensures Classify(k + "=" + d + "=" + rest) == Placeholder(Variable, k, Some(d))
  {
    var t := k + "=" + d + "=" + rest;
    assert t[0] == k[0] && t[|t| - 1] == rest[|rest| - 1];
    TrimmedIsFixed(t);
    KeyThenEquals(k, "=" + d + "=" + rest);
    assert k + ("=" + d + "=" + rest) == t;
    assert !StartsWith(Trim(t), "__") && !StartsWith(Trim(t), "!");
    SplitTwoSeparators(k, d, rest);
    TrimmedIsFixed(k);
    TrimmedIsFixed(d);
  }

  // The literal is split around its braces so that the verifier does not unroll it character by character.
  /** `{{a=b=c}}`: the default is `b`; `c` is dropped. */
  lemma SecondEqualsExample()
    ensures GetPlaceholders("{{" + "a=b=c" + "}}") == [Placeholder(Variable, "a", Some("b"))]
  {
    SingleMarker("a=b=c");
    assert "a" + "=" + "b" + "=" + "c" == "a=b=c";
    assert "a"[..1][0] == 'a';
    DefaultStopsAtSecondEquals("a", "b", "c");
  }

  /** Classification looks only at the trimmed group: padding a group with whitespace changes nothing. */
  lemma ClassifyIgnoresPadding(group: string)
    ensures Classify(group) == Classify(Trim(group))
  {
    TrimIdempotent(group);
  }

  /** The parser trims: a plain name padded with whitespace is the variable of that name. */
  lemma PaddedName(lead: string, w: string, trail: string)
    requires AllWs(lead) && AllWs(trail) && w != [] && Trimmed(w)
    requires '=' !in w && '}' !in w && '}' !in lead && '}' !in trail
    requires !StartsWith(w, "__") && !StartsWith(w, "!")
    ensures GetPlaceholders("{{" + (lead + w + trail) + "}}") == [Placeholder(Variable, w, Some(""))]
  {
    var g := lead + w + trail;
    assert '}' !in g;
    SingleMarker(g);
    TrimUnique(lead, w, trail);
    ClassifyIgnoresPadding(g);
    NameIsVariable(w);
  }

  // The literal is split around its braces so that the verifier does not unroll it character by character.
  /** `{{ name }}` is the variable `name`. */
  lemma PaddedVariable()
    ensures GetPlaceholders("{{" + (" " + "name" + " ") + "}}") == [Placeholder(Variable, "name", Some(""))]
  {
    assert "name"[..2][0] == 'n' && "name"[..1][0] == 'n';
    PaddedName(" ", "name", " ");
  }

  /** Two adjacent markers give their two placeholders, in text order. */
  lemma TwoMarkersInOrder(s: string, v: string, w: string)
    requires MarkerAt(s, 0, v) && MarkerAt(s, |v| + 4, w) && |v| + |w| + 8 == |s|
    ensures GetPlaceholders(s) == [Classify(v), Classify(w)]
  {
    TwoMarkers(s, v, w);
    var ps := GetPlaceholders(s);
    assert |ps| == 2 && ps[0] == Classify(v) && ps[1] == Classify(w);
  }

  // The literal is split around its braces so that the verifier does not unroll it character by character.
  /** Repeated markers are not merged: `{{a}}{{a}}` gives the variable `a` twice. */
  lemma DuplicatesKept()
    ensures GetPlaceholders(("{{" + "a" + "}}") + ("{{" + "a" + "}}"))
              == [Placeholder(Variable, "a", Some("")), Placeholder(Variable, "a", Some(""))]
  {
    var m := "{{" + "a" + "}}";
    var s := m + m;
    assert s[0..5] == m && s[5..10] == m;
    TwoMarkersInOrder(s, "a", "a");
    NameIsVariable("a");
  }
}
