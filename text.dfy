/**
 * The string operations of JavaScript that the template engine and the alias
 * commands rely on, over `string` (= `seq<char>`): `trim`, `startsWith`,
 * `split` on one character, `replace` of the first occurrence of a string,
 * and the decimal rendering of a count in a template literal.
 */
module Text {
  import opened Options

  /**
   * The characters `String.prototype.trim` removes: the WhiteSpace and
   * LineTerminator productions of ECMAScript (section 12.2 and 12.3 of
   * ECMA-262): tab, line feed, vertical tab, form feed, carriage return,
   * space, no-break space, the space separators of category Zs, line and
   * paragraph separator, and the byte order mark.
   */
  predicate IsWs(c: char) {
    || ('\t' <= c <= '\r') || c == ' ' || c == '\U{00A0}' || c == '\U{1680}'
    || ('\U{2000}' <= c <= '\U{200A}') || ('\U{2028}' <= c <= '\U{2029}')
    || c == '\U{202F}' || c == '\U{205F}' || c == '\U{3000}' || c == '\U{FEFF}'
  }

  /** All characters of `s` are whitespace. */
  predicate AllWs(s: string) {
    forall i :: 0 <= i < |s| ==> IsWs(s[i])
  }

  /** The length of the longest all-whitespace prefix of `s`. */
  function LeadingWs(s: string): (n: nat)
    ensures n <= |s|
    ensures forall i :: 0 <= i < n ==> IsWs(s[i])
    ensures n < |s| ==> !IsWs(s[n])
  {
    if s != [] && IsWs(s[0]) then 1 + LeadingWs(s[1..]) else 0
  }

  /** The length of the longest all-whitespace suffix of `s`. */
  function TrailingWs(s: string): (n: nat)
    ensures n <= |s|
    ensures forall i :: |s| - n <= i < |s| ==> IsWs(s[i])
    ensures n < |s| ==> !IsWs(s[|s| - 1 - n])
  {
    if s != [] && IsWs(s[|s| - 1]) then 1 + TrailingWs(s[..|s| - 1]) else 0
  }

  /** A string that neither starts nor ends with whitespace. */
  predicate Trimmed(r: string) {
    r != [] ==> !IsWs(r[0]) && !IsWs(r[|r| - 1])
  }

  /** JavaScript's `s.trim()`: `s` without its leading and trailing whitespace. */
  function Trim(s: string): (r: string)
    ensures |r| <= |s| && Trimmed(r)
  {
    var a := LeadingWs(s);
    var e := |s| - TrailingWs(s);
    s[a..if a < e then e else a]
  }

  /**
   * Trim removes exactly the whitespace around the text: its result is the
   * infix of `s` that starts after the leading whitespace, and what lies
   * around it is whitespace.
   */
  lemma TrimShape(s: string)
    ensures LeadingWs(s) + |Trim(s)| <= |s|
    ensures Trim(s) == s[LeadingWs(s)..LeadingWs(s) + |Trim(s)|]
    ensures AllWs(s[..LeadingWs(s)]) && AllWs(s[LeadingWs(s) + |Trim(s)|..])
  {
    TrimIsInfix(s);
    LeadingWsIsWs(s);
    TrailingPartIsWs(s);
  }

  lemma TrimIsInfix(s: string)
    ensures LeadingWs(s) + |Trim(s)| <= |s|
    ensures Trim(s) == s[LeadingWs(s)..LeadingWs(s) + |Trim(s)|]
  {
  }

  lemma LeadingWsIsWs(s: string)
    ensures AllWs(s[..LeadingWs(s)])
  {
    AllWsRange(s, 0, LeadingWs(s));
  }

  lemma TrailingPartIsWs(s: string)
    ensures LeadingWs(s) + |Trim(s)| <= |s|
    ensures AllWs(s[LeadingWs(s) + |Trim(s)|..])
  {
    var a := LeadingWs(s);
    var b := TrailingWs(s);
    var e := if a < |s| - b then |s| - b else a;
    assert a + |Trim(s)| == e;
    AllWsRange(s, e, |s|);
  }

  /** A slice of a slice is a slice of the whole. */
  lemma SliceOfSlice(s: string, i: nat, e: nat, a: nat, b: nat)
    requires i <= e <= |s| && a <= b <= e - i
    ensures s[i..e][a..b] == s[i + a..i + b]
  {
    forall k | 0 <= k < b - a ensures s[i..e][a..b][k] == s[i + a..i + b][k] {
      assert s[i..e][a..b][k] == s[i..e][a + k] == s[i + a + k];
    }
  }

  /** The rest of `s` after `i + k`, cut at `e`. */
  lemma RestAfter(s: string, i: nat, e: nat, k: nat)
    requires i + k <= e <= |s|
    ensures s[i + k..] == s[i..e][k..] + s[e..]
  {
    assert s[i..e][k..] == s[i + k..e];
  }

  /** A stretch of whitespace characters is a whitespace text. */
  lemma AllWsRange(s: string, i: nat, j: nat)
    requires i <= j <= |s| && forall k :: i <= k < j ==> IsWs(s[k])
    ensures AllWs(s[i..j])
    ensures j == |s| ==> AllWs(s[i..])
    ensures i == 0 ==> AllWs(s[..j])
  {
    forall k | 0 <= k < j - i ensures IsWs(s[i..j][k]) {
      assert s[i..j][k] == s[i + k];
    }
    assert j == |s| ==> s[i..] == s[i..j];
    assert i == 0 ==> s[..j] == s[i..j];
  }

  lemma LeadingWsIs(s: string, k: nat)
    requires k <= |s| && (forall i :: 0 <= i < k ==> IsWs(s[i])) && (k < |s| ==> !IsWs(s[k]))
    ensures LeadingWs(s) == k
  {
  }

  lemma TrailingWsIs(s: string, k: nat)
    requires k <= |s| && (forall i :: |s| - k <= i < |s| ==> IsWs(s[i]))
    requires k < |s| ==> !IsWs(s[|s| - 1 - k])
    ensures TrailingWs(s) == k
  {
  }

  /**
   * Trim is determined by its contract: whenever `s` is whitespace, then a
   * string with no whitespace at either end, then whitespace, Trim returns
   * that middle part.
   */
  lemma TrimUnique(p: string, r: string, q: string)
    requires AllWs(p) && AllWs(q) && Trimmed(r)
    ensures Trim(p + r + q) == r
  {
    if r == [] {
      assert p + r + q == p + q;
      AllWsConcat(p, q);
      TrimAllWs(p + q);
    } else {
      TrimAround(p, r, q);
    }
  }

  /** A whitespace text trims to nothing. */
  lemma TrimAllWs(s: string)
    requires AllWs(s)
    ensures Trim(s) == []
  {
    LeadingWsIs(s, |s|);
  }

  /** Whitespace, a non-empty trimmed text, whitespace: Trim gives the middle. */
  lemma TrimAround(p: string, r: string, q: string)
    requires AllWs(p) && AllWs(q) && Trimmed(r) && r != []
    ensures Trim(p + r + q) == r
  {
    var s := p + r + q;
    assert s == p + (r + q) && (r + q)[0] == r[0];
    LeadingOf(p, r + q);
    assert (p + r)[|p + r| - 1] == r[|r| - 1];
    TrailingOf(p + r, q);
    assert s[|p|..|s| - |q|] == r;
  }

  /** Whitespace followed by text that does not start with whitespace: the leading whitespace is the first part. */
  lemma LeadingOf(p: string, x: string)
    requires AllWs(p) && (x != [] ==> !IsWs(x[0]))
    ensures LeadingWs(p + x) == |p|
  {
    var s := p + x;
    forall i | 0 <= i < |p| ensures IsWs(s[i]) {
      assert s[i] == p[i];
    }
    if x != [] {
      assert s[|p|] == x[0];
    }
    LeadingWsIs(s, |p|);
  }

  /** Text that does not end with whitespace followed by whitespace: the trailing whitespace is the second part. */
  lemma TrailingOf(x: string, q: string)
    requires AllWs(q) && (x != [] ==> !IsWs(x[|x| - 1]))
    ensures TrailingWs(x + q) == |q|
  {
    var s := x + q;
    forall i | |s| - |q| <= i < |s| ensures IsWs(s[i]) {
      assert s[i] == q[i - |x|];
    }
    if x != [] {
      assert s[|s| - 1 - |q|] == x[|x| - 1];
    }
    TrailingWsIs(s, |q|);
  }

  /** Two whitespace texts joined are whitespace. */
  lemma AllWsConcat(p: string, q: string)
    requires AllWs(p) && AllWs(q)
    ensures AllWs(p + q)
  {
    forall i | 0 <= i < |p + q| ensures IsWs((p + q)[i]) {
      if i < |p| { assert (p + q)[i] == p[i]; } else { assert (p + q)[i] == q[i - |p|]; }
    }
  }

  /** Whitespace on either side of a text does not change its trim. */
  lemma TrimIgnoresPadding(lead: string, x: string, trail: string)
    requires AllWs(lead) && AllWs(trail)
    ensures Trim(lead + x + trail) == Trim(x)
  {
    var a := LeadingWs(x);
    var t := Trim(x);
    TrimSplits(x);
    TrimShape(x);
    var l, r := x[..a], x[a + |t|..];
    AllWsConcat(lead, l);
    AllWsConcat(r, trail);
    Regroup(lead, l, t, r, trail);
    TrimUnique(lead + l, t, r + trail);
  }

  /** Five texts joined, grouped two ways. */
  lemma Regroup(p: string, l: string, t: string, r: string, q: string)
    ensures p + (l + t + r) + q == (p + l) + t + (r + q)
  {
  }

  /** Trimming twice is trimming once. */
  lemma TrimIdempotent(s: string)
    ensures Trim(Trim(s)) == Trim(s)
  {
    TrimUnique([], Trim(s), []);
    assert [] + Trim(s) + [] == Trim(s);
  }

  /** Whitespace in front of a text does not change its trim. */
  lemma TrimIgnoresLeadingWs(p: string, x: string)
    requires AllWs(p)
    ensures Trim(p + x) == Trim(x)
  {
    TrimIgnoresPadding(p, x, []);
    AppendEmpty(p + x);
  }

  lemma AppendEmpty(s: string)
    ensures s + [] == s
  {
  }

  /** Text with no whitespace at either end is its own trim. */
  lemma TrimmedIsFixed(s: string)
    requires Trimmed(s)
    ensures Trim(s) == s
  {
    TrimUnique([], s, []);
    assert [] + s + [] == s;
  }

  /** A text is its three consecutive slices joined. */
  lemma ThreeParts(s: string, a: nat, e: nat)
    requires a <= e <= |s|
    ensures s == s[..a] + s[a..e] + s[e..]
  {
  }

  /** `s` is whitespace, then `Trim(s)`, then whitespace. */
  lemma TrimSplits(s: string)
    ensures var a := LeadingWs(s);
      s == s[..a] + Trim(s) + s[a + |Trim(s)|..]
  {
    TrimShape(s);
    ThreeParts(s, LeadingWs(s), LeadingWs(s) + |Trim(s)|);
  }

  /** Trimming only removes characters: trimmed text holds no character its source lacks. */
  lemma TrimKeepsOut(s: string, c: char)
    requires c !in s
    ensures c !in Trim(s)
  {
    var r := Trim(s);
    var a := LeadingWs(s);
    TrimShape(s);
    forall k | 0 <= k < |r| ensures r[k] != c {
      assert r[k] == s[a + k];
    }
  }

  /** JavaScript's `s.startsWith(p)`. */
  predicate StartsWith(s: string, p: string) {
    |p| <= |s| && s[..|p|] == p
  }

  /** The index of the first `c` in `s`, or `|s|` when `s` has none. */
  function IndexOfChar(s: string, c: char): (i: nat)
    ensures i <= |s|
    ensures i < |s| ==> s[i] == c
    ensures forall k :: 0 <= k < i ==> s[k] != c
  {
    if s == [] then 0
    else if s[0] == c then 0
    else 1 + IndexOfChar(s[1..], c)
  }

  /** The parts joined with `sep` between them: the inverse of Split. */
  function Join(parts: seq<string>, sep: char): string
    requires |parts| >= 1
  {
    if |parts| == 1 then parts[0] else parts[0] + [sep] + Join(parts[1..], sep)
  }

  /**
   * JavaScript's `s.split(sep)` for a one-character separator: the maximal
   * `sep`-free segments of `s`, in order, one more than `s` has separators
   * (so an empty segment stands before a leading, after a trailing and
   * between two adjacent separators).
   */
  function Split(s: string, sep: char): (parts: seq<string>)
    ensures |parts| >= 1
    ensures forall k :: 0 <= k < |parts| ==> sep !in parts[k]
    ensures Join(parts, sep) == s
    decreases |s|
  {
    var i := IndexOfChar(s, sep);
    if i == |s| then [s]
    else
      var rest := Split(s[i + 1..], sep);
      assert s == s[..i] + [sep] + s[i + 1..];
      [s[..i]] + rest
  }

  /** Splitting a join of separator-free parts gives the parts back. */
  lemma {:induction false} SplitJoin(parts: seq<string>, sep: char)
    requires |parts| >= 1
    requires forall k :: 0 <= k < |parts| ==> sep !in parts[k]
    ensures Split(Join(parts, sep), sep) == parts
    decreases |parts|
  {
    var s := Join(parts, sep);
    if |parts| == 1 {
      IndexOfCharIs(s, sep, |s|);
    } else {
      JoinHead(parts, sep);
      SplitJoin(parts[1..], sep);
      SplitStep(s, sep);
      assert parts == [parts[0]] + parts[1..];
    }
  }

  /** In a join of two or more parts, the first separator ends the first part. */
  lemma JoinHead(parts: seq<string>, sep: char)
    requires |parts| >= 2 && sep !in parts[0]
    ensures var s := Join(parts, sep); var n := |parts[0]|;
      && IndexOfChar(s, sep) == n < |s| && s[..n] == parts[0] && s[n + 1..] == Join(parts[1..], sep)
  {
    var s := Join(parts, sep);
    var tail := Join(parts[1..], sep);
    var n := |parts[0]|;
    assert s == parts[0] + [sep] + tail;
    assert s[n] == sep;
    forall k | 0 <= k < n ensures s[k] != sep {
      assert s[k] == parts[0][k];
    }
    IndexOfCharIs(s, sep, n);
    assert s[..n] == parts[0];
    assert s[n + 1..] == tail;
  }

  /** Where `s` has a separator, Split takes the text before the first one and splits the rest. */
  lemma SplitStep(s: string, sep: char)
    requires IndexOfChar(s, sep) < |s|
    ensures var i := IndexOfChar(s, sep); Split(s, sep) == [s[..i]] + Split(s[i + 1..], sep)
  {
  }

  /** IndexOfChar is the one index with its contract: no `c` before it, and `c` at it unless it is the length. */
  lemma IndexOfCharIs(s: string, c: char, k: nat)
    requires k <= |s| && (forall j :: 0 <= j < k ==> s[j] != c) && (k < |s| ==> s[k] == c)
    ensures IndexOfChar(s, c) == k
  {
  }

  /** Whitespace around `t` holds no `c` that is not whitespace: the first `c` of the whole is the first of `t`. */
  lemma FirstBetweenWs(lead: string, t: string, trail: string, c: char)
    requires AllWs(lead) && AllWs(trail) && !IsWs(c)
    ensures var i' := IndexOfChar(t, c);
      IndexOfChar(lead + t + trail, c) == if i' < |t| then |lead| + i' else |lead + t + trail|
  {
    var s := lead + t + trail;
    var i' := IndexOfChar(t, c);
    forall j | 0 <= j < |lead| + i' ensures s[j] != c {
      if j < |lead| {
        assert s[j] == lead[j];
      } else {
        assert s[j] == t[j - |lead|];
      }
    }
    if i' < |t| {
      assert s[|lead| + i'] == t[i'];
      IndexOfCharIs(s, c, |lead| + i');
    } else {
      forall j | |lead| + |t| <= j < |s| ensures s[j] != c {
        assert s[j] == trail[j - |lead| - |t|];
      }
      IndexOfCharIs(s, c, |s|);
    }
  }

  /** When `t` has a `c`, the whole's text before its first `c` is `lead` and `t`'s text before its first `c`. */
  lemma BeforeFirstBetweenWs(lead: string, t: string, trail: string, c: char)
    requires AllWs(lead) && AllWs(trail) && !IsWs(c) && IndexOfChar(t, c) < |t|
    ensures var s := lead + t + trail;
      s[..IndexOfChar(s, c)] == lead + t[..IndexOfChar(t, c)]
  {
    FirstBetweenWs(lead, t, trail, c);
  }

  /** When `t` has no `c`, nor has the whole. */
  lemma NoneBetweenWs(lead: string, t: string, trail: string, c: char)
    requires AllWs(lead) && AllWs(trail) && !IsWs(c) && IndexOfChar(t, c) == |t|
    ensures var s := lead + t + trail;
      s[..IndexOfChar(s, c)] == s && t[..IndexOfChar(t, c)] == t
  {
    FirstBetweenWs(lead, t, trail, c);
  }

  /** The text before the first `c` of `lead + t + trail`, trimmed, is the trimmed text before the first `c` of `t`. */
  lemma TrimBeforeFirstBetweenWs(lead: string, t: string, trail: string, c: char)
    requires AllWs(lead) && AllWs(trail) && Trimmed(t) && !IsWs(c)
    ensures var s := lead + t + trail;
      Trim(s[..IndexOfChar(s, c)]) == Trim(t[..IndexOfChar(t, c)])
  {
    var i' := IndexOfChar(t, c);
    if i' < |t| {
      BeforeFirstBetweenWs(lead, t, trail, c);
      TrimIgnoresLeadingWs(lead, t[..i']);
    } else {
      NoneBetweenWs(lead, t, trail, c);
      TrimUnique(lead, t, trail);
      TrimmedIsFixed(t);
    }
  }

  /**
   * For a character `c` that is not whitespace, the text before the first `c`
   * trims the same whether or not the whole text was trimmed first.
   */
  lemma TrimBeforeFirst(s: string, c: char)
    requires !IsWs(c)
    ensures var t := Trim(s);
      Trim(s[..IndexOfChar(s, c)]) == Trim(t[..IndexOfChar(t, c)])
  {
    var a := LeadingWs(s);
    var t := Trim(s);
    TrimSplits(s);
    TrimShape(s);
    TrimBeforeFirstBetweenWs(s[..a], t, s[a + |t|..], c);
  }

  /** The first `c` of `a + [c] + b`, when `a` has none, is right after `a`. */
  lemma IndexOfCharAfter(a: string, c: char, b: string)
    requires c !in a
    ensures IndexOfChar(a + [c] + b, c) == |a|
  {
    var s := a + [c] + b;
    forall j | 0 <= j < |a| ensures s[j] != c { assert s[j] == a[j]; }
    assert s[|a|] == c;
  }

  /** Text without the separator splits into itself alone. */
  lemma SplitWithoutSeparator(s: string, sep: char)
    requires sep !in s
    ensures Split(s, sep) == [s]
  {
    assert IndexOfChar(s, sep) == |s|;
  }

  /** The first part of a split is the text before the first separator. */
  lemma SplitFirst(s: string, sep: char)
    ensures Split(s, sep)[0] == s[..IndexOfChar(s, sep)]
    ensures |Split(s, sep)| >= 2 <==> IndexOfChar(s, sep) < |s|
  {
  }

  /** `p` occurs in `s` at index `i`. */
  predicate OccursAt(s: string, p: string, i: nat) {
    i + |p| <= |s| && s[i..i + |p|] == p
  }

  /** The first index at or after `k` where `p` occurs in `s`, if any. */
  function FindFrom(s: string, p: string, k: nat): (r: Option<nat>)
    ensures r.Some? ==> k <= r.value && OccursAt(s, p, r.value)
    ensures r.Some? ==> forall j :: k <= j < r.value ==> !OccursAt(s, p, j)
    ensures r.None? ==> forall j :: k <= j ==> !OccursAt(s, p, j)
    decreases |s| + 1 - k
  {
    if k + |p| > |s| then None
    else if OccursAt(s, p, k) then Some(k)
    else FindFrom(s, p, k + 1)
  }

  /** Where `p` occurs at `i` and nowhere between `k` and `i`, the search from `k` finds `i`. */
  lemma {:induction false} FindFromIs(s: string, p: string, k: nat, i: nat)
    requires k <= i && OccursAt(s, p, i)
    requires forall j :: k <= j < i ==> !OccursAt(s, p, j)
    ensures FindFrom(s, p, k) == Some(i)
    decreases i - k
  {
    if k < i {
      FindFromIs(s, p, k + 1, i);
    }
  }

  /** JavaScript's `s.indexOf(p)`, with None for -1. */
  function Find(s: string, p: string): Option<nat> {
    FindFrom(s, p, 0)
  }

  /** JavaScript's `s.replace(p, q)` for a string pattern `p`: only the first occurrence is replaced. */
  function ReplaceFirst(s: string, p: string, q: string): string {
    match Find(s, p)
    case None => s
    case Some(i) => s[..i] + q + s[i + |p|..]
  }

  /** Removing the first occurrence, found at `i`, leaves what is before it and what is after it. */
  lemma RemoveFirstAt(s: string, p: string, i: nat)
    requires Find(s, p) == Some(i)
    ensures i + |p| <= |s| && ReplaceFirst(s, p, "") == s[..i] + s[i + |p|..]
  {
    assert s[..i] + "" == s[..i];
  }

  /** Removing the first occurrence of `p`, found at the start of the infix `t = s[i..i + |t|]`: what is before `t`, the rest of `t`, what is after `t`. */
  lemma RemoveFirstInInfix(s: string, p: string, i: nat, t: string)
    requires Find(s, p) == Some(i) && |p| <= |t| && i + |t| <= |s| && t == s[i..i + |t|]
    ensures ReplaceFirst(s, p, "") == s[..i] + t[|p|..] + s[i + |t|..]
  {
    RemoveFirstAt(s, p, i);
    RestAfter(s, i, i + |t|, |p|);
    Assoc(s[..i], t[|p|..], s[i + |t|..]);
  }

  /** Concatenation is associative. */
  lemma Assoc(x: string, y: string, z: string)
    ensures x + (y + z) == x + y + z
  {
  }

  predicate IsDigit(c: char) {
    '0' <= c <= '9'
  }

  function DigitChar(d: nat): (c: char)
    requires d < 10
    ensures IsDigit(c) && c as int - '0' as int == d
  {
    ('0' as int + d) as char
  }

  /** The decimal numeral of `n`, as a template literal `${n}` renders a non-negative integer. */
  function NatToString(n: nat): (r: string)
    ensures |r| >= 1
    ensures forall k :: 0 <= k < |r| ==> IsDigit(r[k])
    ensures r[0] == '0' ==> n == 0
  {
    if n < 10 then [DigitChar(n)] else NatToString(n / 10) + [DigitChar(n % 10)]
  }

  /** The value of a string of decimal digits. */
  function DigitsValue(s: string): nat
    requires forall k :: 0 <= k < |s| ==> IsDigit(s[k])
  {
    if s == [] then 0
    else
      var last := s[|s| - 1];
      assert IsDigit(last);
      10 * DigitsValue(s[..|s| - 1]) + (last as int - '0' as int)
  }

  /** The numeral denotes the number it was made from. */
  lemma {:induction false} NatToStringValue(n: nat)
    ensures DigitsValue(NatToString(n)) == n
    decreases n
  {
    var r := NatToString(n);
    if n >= 10 {
      NatToStringValue(n / 10);
      assert r[..|r| - 1] == NatToString(n / 10);
    } else {
      assert r[..|r| - 1] == [];
    }
  }
}
