/** `anonymize_content`: the privacy rules, then the clean-up of what they leave behind.
    The rules themselves live in a module that is not part of this model; they are an
    ordered list of (pattern, replacement) pairs applied by an uninterpreted substitution. */
module Redaction {

  import opened Wrappers
  import opened Text
  import opened Scan

  datatype Rule = Rule(pattern: string, replacement: string)

  /** The rule list and the `re.sub(pattern, replacement, text, flags=re.IGNORECASE)` step
      that applies one rule to a text. */
  datatype Redactor = Redactor(rules: seq<Rule>, substitute: (Rule, string) -> string)

  /** Every rule, in list order, each applied to the result of the previous one. */
  function ApplyRules(rules: seq<Rule>, substitute: (Rule, string) -> string, text: string): string
    decreases |rules|
  {
    if rules == [] then text else ApplyRules(rules[1..], substitute, substitute(rules[0], text))
  }

  /** No rule changes `text`. */
  predicate Fixes(red: Redactor, text: string) {
    forall i :: 0 <= i < |red.rules| ==> red.substitute(red.rules[i], text) == text
  }

  /** The replacement `' '`. */
  function Blank(t: string): string {
    " "
  }

  /** `re.sub(r'[p]+', ' ', s)`: every maximal run of `p` characters becomes one space. */
  function Collapse(s: string, p: char -> bool): string {
    Sub(s, RunOf(p), Blank)
  }

  /** `re.sub(r'\s+', ' ', s)`. */
  function CollapseSpace(s: string): string {
    Collapse(s, IsSpace)
  }

  /** The pattern `<open>\s*<close>`. */
  function EmptyPair(open: char, close: char): Matcher {
    t => if t != [] && t[0] == open then
           (var j := SkipSpace(t, 1); if j < |t| && t[j] == close then Some(j + 1) else None)
         else None
  }

  /** `re.sub(r'<open>\s*<close>', '', s)`: one left-to-right pass. */
  function RemoveEmptyPairs(s: string, open: char, close: char): string {
    Sub(s, EmptyPair(open, close), Delete)
  }

  /** Every `p` character of `s` is a plain space. */
  predicate OnlyBlanks(s: string, p: char -> bool) {
    forall i :: 0 <= i < |s| && p(s[i]) ==> s[i] == ' '
  }

  /** No two neighbouring characters of `s` both satisfy `p`. */
  predicate NoAdjacent(s: string, p: char -> bool) {
    forall i :: 0 <= i < |s| - 1 ==> !(p(s[i]) && p(s[i + 1]))
  }

  /** `<open>\s*<close>` matches nowhere in `s`. */
  predicate NoEmptyPair(s: string, open: char, close: char) {
    forall j :: 0 <= j < |s| ==> !MatchesAt(EmptyPair(open, close), s[j..])
  }

  /** Whitespace and the two bracket pairs: everything the clean-up may remove or rewrite. */
  predicate Noise(c: char) {
    IsSpace(c) || c == '<' || c == '>' || c == '(' || c == ')'
  }

  /** `anonymize_content`: an empty text is returned as it is; otherwise the rules run, then
      whitespace runs collapse, then empty `<>` pairs and then empty `()` pairs are deleted,
      and the result is stripped. The result has no whitespace at either end, and its only
      whitespace character is the plain space. */
  function Anonymize(red: Redactor, text: string): (r: string)
    ensures text == [] ==> r == []
    ensures Stripped(r)
    ensures OnlyBlanks(r, IsSpace)
  {
    if text == [] then text
    else
      var ruled := ApplyRules(red.rules, red.substitute, text);
      CleanUpShape(ruled);
      CleanUp(ruled)
  }

  /** The clean-up after the rules: collapse whitespace, delete empty `<>` and then empty `()`
      pairs, strip. */
  function CleanUp(s: string): string {
    Strip(RemoveEmptyPairs(RemoveEmptyPairs(CollapseSpace(s), '<', '>'), '(', ')'))
  }

  /** The first character of a collapsed text: a space for a leading run, else unchanged. */
  lemma {:induction false} CollapseHead(s: string, p: char -> bool)
    requires s != []
    ensures Collapse(s, p) != []
    ensures Collapse(s, p)[0] == if p(s[0]) then ' ' else s[0]
  {
    RunOfMatches(s, p);
  }

  /** After collapsing, every `p` character is a space and no two are adjacent. */
  lemma {:induction false} CollapseShape(s: string, p: char -> bool)
    ensures OnlyBlanks(Collapse(s, p), p)
    ensures NoAdjacent(Collapse(s, p), p)
    decreases |s|
  {
    if s != [] {
      RunOfMatches(s, p);
      var n := if p(s[0]) then RunEnd(s, 0, p) else 1;
      var rest := s[n..];
      var head := if p(s[0]) then " " else [s[0]];
      CollapseShape(rest, p);
      var r := Collapse(s, p);
      var tail := Collapse(rest, p);
      assert r == head + tail;
      if tail != [] {
        CollapseHead(rest, p);
        assert r[1] == tail[0];
        assert !(p(r[0]) && p(r[1]));
      }
      forall i | 1 <= i < |r| - 1
        ensures !(p(r[i]) && p(r[i + 1]))
      {
        assert r[i] == tail[i - 1] && r[i + 1] == tail[i];
      }
      forall i | 1 <= i < |r| && p(r[i])
        ensures r[i] == ' '
      {
        assert r[i] == tail[i - 1];
      }
    }
  }

  /** A text whose `p` characters are single spaces is left alone by collapsing. */
  lemma {:induction false} CollapseFixed(s: string, p: char -> bool)
    requires OnlyBlanks(s, p) && NoAdjacent(s, p)
    ensures Collapse(s, p) == s
  {
    forall j | 0 <= j < |s|
      ensures Keeps(RunOf(p), Blank, s[j..])
    {
      var t := s[j..];
      RunOfMatches(t, p);
      if p(t[0]) {
        assert t[0] == ' ';
        if |t| > 1 {
          assert t[1] == s[j + 1];
          assert RunEnd(t, 1, p) == 1;
        }
        assert RunEnd(t, 0, p) == 1;
        assert t[..1] == " ";
      }
    }
    SubKeeps(s, RunOf(p), Blank);
  }

  /** Collapsing whitespace twice is collapsing it once. */
  lemma CollapseIdempotent(s: string, p: char -> bool)
    ensures Collapse(Collapse(s, p), p) == Collapse(s, p)
  {
    CollapseShape(s, p);
    CollapseFixed(Collapse(s, p), p);
  }

  /** Collapsing keeps every character that is neither `p` nor a space, in order. */
  lemma CollapseKeeps(s: string, p: char -> bool, q: char -> bool)
    requires forall c :: p(c) ==> q(c)
    requires q(' ')
    ensures Without(Collapse(s, p), q) == Without(s, q)
  {
    forall j | 0 <= j < |s| && MatchesAt(RunOf(p), s[j..])
      ensures Without(Blank(s[j..]), q) == Without(s[j..][..MatchLength(RunOf(p), s[j..])], q)
    {
      var t := s[j..];
      RunOfMatches(t, p);
      var run := t[..RunEnd(t, 0, p)];
      assert forall i :: 0 <= i < |run| ==> p(run[i]);
      WithoutAll(run, q);
      WithoutAll(" ", q);
    }
    SubPreservesWithout(s, RunOf(p), Blank, q);
  }

  /** What `<open>\s*<close>` matches is the two brackets and the whitespace between them. */
  lemma EmptyPairText(t: string, open: char, close: char)
    requires MatchesAt(EmptyPair(open, close), t)
    ensures t[0] == open && t[MatchLength(EmptyPair(open, close), t) - 1] == close
    ensures forall i :: 0 < i < MatchLength(EmptyPair(open, close), t) - 1 ==> IsSpace(t[i])
  {
  }

  /** Deleting empty pairs keeps every character that is not whitespace or one of the two
      brackets, in order. */
  lemma RemovePairsKeeps(s: string, open: char, close: char, q: char -> bool)
    requires q(open) && q(close)
    requires forall c :: IsSpace(c) ==> q(c)
    ensures Without(RemoveEmptyPairs(s, open, close), q) == Without(s, q)
  {
    forall j | 0 <= j < |s| && MatchesAt(EmptyPair(open, close), s[j..])
      ensures Without(Delete(s[j..]), q) == Without(s[j..][..MatchLength(EmptyPair(open, close), s[j..])], q)
    {
      var t := s[j..];
      EmptyPairText(t, open, close);
      var matched := t[..MatchLength(EmptyPair(open, close), t)];
      assert forall i :: 0 <= i < |matched| ==> q(matched[i]);
      WithoutAll(matched, q);
    }
    SubPreservesWithout(s, EmptyPair(open, close), Delete, q);
  }

  /** The deletion pass at its first empty pair, at `j`: the pair is `open`, whitespace and
      `close`; the text before it is kept, the pair is dropped, and the pass goes on after
      it. */
  lemma RemovePairsAt(s: string, open: char, close: char, j: nat) returns (n: nat)
    requires j < |s| && MatchesAt(EmptyPair(open, close), s[j..])
    requires forall i :: 0 <= i < j ==> !MatchesAt(EmptyPair(open, close), s[i..])
    ensures n == MatchLength(EmptyPair(open, close), s[j..])
    ensures j + n <= |s| && s[j] == open && s[j + n - 1] == close
    ensures forall i :: j < i < j + n - 1 ==> IsSpace(s[i])
    ensures RemoveEmptyPairs(s, open, close) == s[..j] + RemoveEmptyPairs(s[j + n..], open, close)
  {
    var t := s[j..];
    n := MatchLength(EmptyPair(open, close), t);
    EmptyPairText(t, open, close);
    assert forall i :: 0 <= i < n ==> t[i] == s[j + i];
    SubFirst(s, j, n, EmptyPair(open, close), Delete, []);
    assert s[..j] + [] == s[..j];
  }

  /** Without an empty pair the deletion pass changes nothing. */
  lemma RemovePairsNone(s: string, open: char, close: char)
    requires NoEmptyPair(s, open, close)
    ensures RemoveEmptyPairs(s, open, close) == s
  {
    SubNoMatch(s, EmptyPair(open, close), Delete);
  }

  /** A text in which every character occurs in a text with only blank whitespace has only
      blank whitespace itself. */
  lemma OnlyBlanksSubset(a: string, b: string, p: char -> bool)
    requires forall c :: c in a ==> c in b
    requires OnlyBlanks(b, p)
    ensures OnlyBlanks(a, p)
  {
    forall i | 0 <= i < |a| && p(a[i])
      ensures a[i] == ' '
    {
      assert a[i] in b;
      var k :| 0 <= k < |b| && b[k] == a[i];
    }
  }

  /** Deleting empty pairs introduces no whitespace other than what was there. */
  lemma RemovePairsBlanks(s: string)
    requires OnlyBlanks(s, IsSpace)
    ensures OnlyBlanks(RemoveEmptyPairs(RemoveEmptyPairs(s, '<', '>'), '(', ')'), IsSpace)
  {
    var once := RemoveEmptyPairs(s, '<', '>');
    SubDeletes(s, EmptyPair('<', '>'));
    OnlyBlanksSubset(once, s, IsSpace);
    SubDeletes(once, EmptyPair('(', ')'));
    OnlyBlanksSubset(RemoveEmptyPairs(once, '(', ')'), once, IsSpace);
  }

  /** Stripping keeps a text's whitespace blank and leaves none at the ends. */
  lemma StripBlanks(s: string)
    requires OnlyBlanks(s, IsSpace)
    ensures Stripped(Strip(s)) && OnlyBlanks(Strip(s), IsSpace)
  {
    StripSpec(s);
    var o := TrimOffset(s, IsSpace);
    forall c | c in Strip(s)
      ensures c in s
    {
      var i :| 0 <= i < |Strip(s)| && Strip(s)[i] == c;
      assert s[o + i] == c;
    }
    OnlyBlanksSubset(Strip(s), s, IsSpace);
  }

  /** The clean-up leaves no whitespace at the ends and only blank whitespace inside. */
  lemma CleanUpShape(s: string)
    ensures Stripped(CleanUp(s)) && OnlyBlanks(CleanUp(s), IsSpace)
  {
    var collapsed := CollapseSpace(s);
    CollapseShape(s, IsSpace);
    RemovePairsBlanks(collapsed);
    StripBlanks(RemoveEmptyPairs(RemoveEmptyPairs(collapsed, '<', '>'), '(', ')'));
  }

  /** The clean-up keeps every character outside `q`, in order, when `q` covers whitespace
      and the four brackets. */
  lemma CleanUpKeeps(s: string, q: char -> bool)
    requires forall c :: IsSpace(c) ==> q(c)
    requires q('<') && q('>') && q('(') && q(')')
    ensures Without(CleanUp(s), q) == Without(s, q)
  {
    var collapsed := CollapseSpace(s);
    CollapseKeeps(s, IsSpace, q);
    var once := RemoveEmptyPairs(collapsed, '<', '>');
    RemovePairsKeeps(collapsed, '<', '>', q);
    var twice := RemoveEmptyPairs(once, '(', ')');
    RemovePairsKeeps(once, '(', ')', q);
    TrimKeeps(twice, IsSpace, q);
  }

  /** The characters the rules leave that are neither whitespace nor brackets all survive the
      clean-up, in order: only whitespace and empty bracket pairs are rewritten. */
  lemma AnonymizeKeepsText(red: Redactor, text: string)
    requires text != []
    ensures Without(Anonymize(red, text), Noise) == Without(ApplyRules(red.rules, red.substitute, text), Noise)
  {
    CleanUpKeeps(ApplyRules(red.rules, red.substitute, text), Noise);
  }

  /** Rules that change nothing leave the text as they found it. */
  lemma {:induction false} ApplyRulesFixed(rules: seq<Rule>, substitute: (Rule, string) -> string, text: string)
    requires forall i :: 0 <= i < |rules| ==> substitute(rules[i], text) == text
    ensures ApplyRules(rules, substitute, text) == text
    decreases |rules|
  {
    if rules != [] {
      assert substitute(rules[0], text) == text;
      ApplyRulesFixed(rules[1..], substitute, text);
    }
  }

  /** A text that no rule touches, with single blank spaces only, nothing around it and no
      empty bracket pair, is returned unchanged. */
  lemma AnonymizeCleanText(red: Redactor, text: string)
    requires Fixes(red, text)
    requires Stripped(text) && OnlyBlanks(text, IsSpace) && NoAdjacent(text, IsSpace)
    requires NoEmptyPair(text, '<', '>') && NoEmptyPair(text, '(', ')')
    ensures Anonymize(red, text) == text
  {
    if text != [] {
      ApplyRulesFixed(red.rules, red.substitute, text);
      CollapseFixed(text, IsSpace);
      SubNoMatch(text, EmptyPair('<', '>'), Delete);
      SubNoMatch(text, EmptyPair('(', ')'), Delete);
      StripStripped(text);
    }
  }

  /** `<\s*>` matches once in the example, at the `<>`. */
  lemma PairRemovalExample(s: string, t: string)
    requires s == "a <> b" && t == "a  b"
    ensures RemoveEmptyPairs(s, '<', '>') == t
  {
    var m := EmptyPair('<', '>');
    assert !MatchesAt(m, s[0..]) && !MatchesAt(m, s[1..]);
    assert s[2..][0] == '<' && s[2..][1] == '>';
    assert SkipSpace(s[2..], 1) == 1;
    var n := RemovePairsAt(s, '<', '>', 2);
    var rest := s[4..];
    assert rest[0] == ' ' && rest[1] == 'b' && |rest| == 2;
    assert !MatchesAt(m, rest[0..]) && !MatchesAt(m, rest[1..]);
    RemovePairsNone(rest, '<', '>');
    assert s[..2] + rest == t;
  }

  /** The example text has single blank spaces already. */
  lemma CollapseExample(s: string)
    requires s == "a <> b"
    ensures CollapseSpace(s) == s
  {
    assert !IsSpace('a') && !IsSpace('<') && !IsSpace('>') && !IsSpace('b');
    assert forall i :: 0 <= i < |s| && IsSpace(s[i]) ==> s[i] == ' ';
    assert NoAdjacent(s, IsSpace);
    CollapseFixed(s, IsSpace);
  }

  /** `\(\s*\)` does not match in a text without `(`. */
  lemma ParenRemovalExample(t: string)
    requires t == "a  b"
    ensures RemoveEmptyPairs(t, '(', ')') == t
  {
    var m := EmptyPair('(', ')');
    forall j | 0 <= j < 4
      ensures !MatchesAt(m, t[j..])
    {
    }
    SubNoMatch(t, m, Delete);
  }

  /** Brackets are removed after whitespace is collapsed, so the spaces on both sides of an
      empty pair both stay: without rules, `a <> b` becomes `a  b`, with two spaces in a
      row. */
  lemma BracketsAfterCollapse(red: Redactor, s: string, t: string)
    requires red.rules == [] && s == "a <> b" && t == "a  b"
    ensures Anonymize(red, s) == t
  {
    assert ApplyRules(red.rules, red.substitute, s) == s;
    CollapseExample(s);
    PairRemovalExample(s, t);
    ParenRemovalExample(t);
    assert t[0] == 'a' && t[|t| - 1] == 'b';
    StripStripped(t);
    assert CleanUp(s) == t;
  }
}
