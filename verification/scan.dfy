/** Python's `re.sub` and `re.search`, for patterns that never match the empty string.
    A pattern is given as a `Matcher`: applied to the text that starts at some position,
    it returns the length of the match anchored there, if the pattern matches there.
    Every pattern of the system looks only forward from the position it is tried at, so
    the remaining text is all a matcher needs. */
module Scan {

  import opened Wrappers
  import opened Text

  type Matcher = string -> Option<nat>

  /** The first position in `[p, g)` where `f` gives a value, with that value. */
  function FirstHit(p: nat, g: nat, f: nat -> Option<nat>): (r: Option<(nat, nat)>)
    requires p <= g
    ensures r.Some? ==> p <= r.value.0 < g && f(r.value.0) == Some(r.value.1)
    ensures r.Some? ==> forall q :: p <= q < r.value.0 ==> f(q).None?
    ensures r.None? ==> forall q :: p <= q < g ==> f(q).None?
    decreases g - p
  {
    if p == g then None
    else
      match f(p)
      case Some(e) => Some((p, e))
      case None => FirstHit(p + 1, g, f)
  }

  /** The pattern matches a non-empty prefix of `t`. */
  predicate MatchesAt(m: Matcher, t: string) {
    m(t).Some? && 0 < m(t).value <= |t|
  }

  /** Length of the match at the start of `t`. */
  function MatchLength(m: Matcher, t: string): (n: nat)
    requires MatchesAt(m, t)
    ensures 0 < n <= |t|
  {
    m(t).value
  }

  /** `re.sub(pattern, repl, s)`: scanning left to right, each match is replaced by `repl`
      applied to the text from the start of the match (so the callback can read the match
      and its groups), and scanning resumes after the match; elsewhere one character is
      copied and scanning moves on by one. */
  function Sub(s: string, m: Matcher, repl: string -> string): string
    decreases |s|
  {
    if s == [] then []
    else if MatchesAt(m, s) then repl(s) + Sub(s[MatchLength(m, s)..], m, repl)
    else [s[0]] + Sub(s[1..], m, repl)
  }

  /** `repl` gives back the matched text unchanged if the pattern matches at the start of `t`. */
  predicate Keeps(m: Matcher, repl: string -> string, t: string) {
    MatchesAt(m, t) ==> repl(t) == t[..MatchLength(m, t)]
  }

  /** A substitution whose replacement reproduces every match it meets changes nothing. */
  lemma {:induction false} SubKeeps(s: string, m: Matcher, repl: string -> string)
    requires forall j :: 0 <= j < |s| ==> Keeps(m, repl, s[j..])
    ensures Sub(s, m, repl) == s
    decreases |s|
  {
    if s != [] {
      var n := if MatchesAt(m, s) then MatchLength(m, s) else 1;
      assert Keeps(m, repl, s[0..]);
      forall j | 0 <= j < |s[n..]|
        ensures Keeps(m, repl, s[n..][j..])
      {
        assert s[n..][j..] == s[n + j..];
      }
      SubKeeps(s[n..], m, repl);
      if MatchesAt(m, s) {
        assert s == s[..n] + s[n..];
      } else {
        assert s == [s[0]] + s[1..];
      }
    }
  }

  /** A substitution over a text in which the pattern matches nowhere changes nothing. */
  lemma SubNoMatch(s: string, m: Matcher, repl: string -> string)
    requires forall j :: 0 <= j < |s| ==> !MatchesAt(m, s[j..])
    ensures Sub(s, m, repl) == s
  {
    forall j | 0 <= j < |s|
      ensures Keeps(m, repl, s[j..])
    {
    }
    SubKeeps(s, m, repl);
  }

  /** Text before the first match is copied unchanged. */
  lemma {:induction false} SubSkips(s: string, k: nat, m: Matcher, repl: string -> string)
    requires k <= |s|
    requires forall j :: 0 <= j < k ==> !MatchesAt(m, s[j..])
    ensures Sub(s, m, repl) == s[..k] + Sub(s[k..], m, repl)
    decreases k
  {
    if k > 0 {
      assert !MatchesAt(m, s[0..]);
      forall j | 0 <= j < k - 1
        ensures !MatchesAt(m, s[1..][j..])
      {
        assert s[1..][j..] == s[j + 1..];
      }
      SubSkips(s[1..], k - 1, m, repl);
      assert s[1..][k - 1..] == s[k..];
      assert s[..k] == [s[0]] + s[1..][..k - 1];
    }
  }

  /** The replacement of a pattern that is deleted. */
  function Delete(t: string): string {
    []
  }

  /** A substitution that deletes its matches returns a subsequence of its input, so every
      character of the result occurs in the input. */
  lemma {:induction false} SubDeletes(s: string, m: Matcher)
    ensures |Sub(s, m, Delete)| <= |s|
    ensures forall c :: c in Sub(s, m, Delete) ==> c in s
    decreases |s|
  {
    if s != [] {
      var n := if MatchesAt(m, s) then MatchLength(m, s) else 1;
      SubDeletes(s[n..], m);
      forall c | c in Sub(s[n..], m, Delete)
        ensures c in s
      {
        assert c in s[n..];
        var i :| 0 <= i < |s[n..]| && s[n..][i] == c;
        assert s[n + i] == c;
      }
    }
  }

  /** `re.search(pattern, s)`: where the leftmost match starts, if there is one. */
  function Search(s: string, m: Matcher, from: nat): (r: Option<nat>)
    requires from <= |s|
    ensures r.Some? ==> from <= r.value < |s| && MatchesAt(m, s[r.value..])
    ensures r.Some? ==> forall j :: from <= j < r.value ==> !MatchesAt(m, s[j..])
    ensures r.None? ==> forall j :: from <= j < |s| ==> !MatchesAt(m, s[j..])
    decreases |s| - from
  {
    if from == |s| then None
    else if MatchesAt(m, s[from..]) then Some(from)
    else Search(s, m, from + 1)
  }

  /** The pattern that is a fixed string. */
  function Literal(needle: string): Matcher {
    t => if StartsWith(t, needle) then Some(|needle|) else None
  }

  /** The replacement that is always `v`. */
  function Constant(v: string): string -> string {
    t => v
  }

  /** Python's `s.replace(target, replacement)`: non-overlapping occurrences, left to right. */
  function Replace(s: string, target: string, replacement: string): string {
    Sub(s, Literal(target), Constant(replacement))
  }

  /** One step of `replace`: an occurrence at the start is replaced and skipped, otherwise
      the first character is copied. */
  lemma ReplaceStep(s: string, target: string, replacement: string)
    requires s != [] && target != []
    ensures StartsWith(s, target) ==>
              Replace(s, target, replacement) == replacement + Replace(s[|target|..], target, replacement)
    ensures !StartsWith(s, target) ==>
              Replace(s, target, replacement) == [s[0]] + Replace(s[1..], target, replacement)
  {
  }

  /** A string that does not contain `target` is left unchanged by `replace`. */
  lemma ReplaceAbsent(s: string, target: string, replacement: string)
    requires target != []
    requires forall j :: 0 <= j < |s| ==> !StartsWith(s[j..], target)
    ensures Replace(s, target, replacement) == s
  {
    SubNoMatch(s, Literal(target), Constant(replacement));
  }

  /** The pattern `[p]+`: the longest run of characters satisfying `p`. */
  function RunOf(p: char -> bool): Matcher {
    t => if t != [] && p(t[0]) then Some(RunEnd(t, 0, p)) else None
  }

  /** `[p]+` matches exactly where the text starts with a character satisfying `p`. */
  lemma RunOfMatches(t: string, p: char -> bool)
    ensures MatchesAt(RunOf(p), t) <==> t != [] && p(t[0])
    ensures MatchesAt(RunOf(p), t) ==> MatchLength(RunOf(p), t) == RunEnd(t, 0, p)
  {
    if t != [] && p(t[0]) {
      assert RunEnd(t, 0, p) == RunEnd(t, 1, p);
    }
  }

  /** If every replacement has the same characters outside `q` as the text it replaces, the
      substitution keeps the characters outside `q`, in order. */
  lemma {:induction false} SubPreservesWithout(s: string, m: Matcher, repl: string -> string, q: char -> bool)
    requires forall j :: 0 <= j < |s| && MatchesAt(m, s[j..]) ==>
               Without(repl(s[j..]), q) == Without(s[j..][..MatchLength(m, s[j..])], q)
    ensures Without(Sub(s, m, repl), q) == Without(s, q)
    decreases |s|
  {
    if s != [] {
      var n := if MatchesAt(m, s) then MatchLength(m, s) else 1;
      forall j | 0 <= j < |s[n..]| && MatchesAt(m, s[n..][j..])
        ensures Without(repl(s[n..][j..]), q) == Without(s[n..][j..][..MatchLength(m, s[n..][j..])], q)
      {
        assert s[n..][j..] == s[n + j..];
      }
      SubPreservesWithout(s[n..], m, repl, q);
      assert s == s[..n] + s[n..];
      WithoutConcat(s[..n], s[n..], q);
      if MatchesAt(m, s) {
        assert s[0..] == s;
        WithoutConcat(repl(s), Sub(s[n..], m, repl), q);
      } else {
        assert s[..1] == [s[0]];
        WithoutConcat([s[0]], Sub(s[n..], m, repl), q);
      }
    }
  }

  /** The text of the match at the start of `t`. */
  function Matched(m: Matcher, t: string): string {
    if MatchesAt(m, t) then t[..MatchLength(m, t)] else []
  }

  /** `re.sub` with a replacement step that may raise: `None` as soon as one step does. */
  function SubPartial(s: string, m: Matcher, repl: string -> Option<string>): Option<string>
    decreases |s|
  {
    if s == [] then Some([])
    else if MatchesAt(m, s) then
      match (repl(s), SubPartial(s[MatchLength(m, s)..], m, repl))
      case (Some(x), Some(rest)) => Some(x + rest)
      case _ => None
    else
      match SubPartial(s[1..], m, repl)
      case Some(rest) => Some([s[0]] + rest)
      case None => None
  }

  /** A partial substitution whose every step succeeds with what `repl` gives is the total
      substitution with `repl`. */
  lemma {:induction false} SubPartialTotal(s: string, m: Matcher, partial: string -> Option<string>, repl: string -> string)
    requires forall j :: 0 <= j < |s| && MatchesAt(m, s[j..]) ==> partial(s[j..]) == Some(repl(s[j..]))
    ensures SubPartial(s, m, partial) == Some(Sub(s, m, repl))
    decreases |s|
  {
    if s != [] {
      var n := if MatchesAt(m, s) then MatchLength(m, s) else 1;
      forall j | 0 <= j < |s[n..]| && MatchesAt(m, s[n..][j..])
        ensures partial(s[n..][j..]) == Some(repl(s[n..][j..]))
      {
        assert s[n..][j..] == s[n + j..];
      }
      SubPartialTotal(s[n..], m, partial, repl);
      assert s[0..] == s;
    }
  }

  /** A partial substitution fails when a step at a match it reaches fails. */
  lemma SubPartialFails(s: string, m: Matcher, partial: string -> Option<string>)
    requires s != [] && MatchesAt(m, s) && partial(s).None?
    ensures SubPartial(s, m, partial).None?
  {
  }

  /** Two replacements that agree on every match give the same substitution. */
  lemma {:induction false} SubAgree(s: string, m: Matcher, f: string -> string, g: string -> string)
    requires forall j :: 0 <= j < |s| && MatchesAt(m, s[j..]) ==> f(s[j..]) == g(s[j..])
    ensures Sub(s, m, f) == Sub(s, m, g)
    decreases |s|
  {
    if s != [] {
      var n := if MatchesAt(m, s) then MatchLength(m, s) else 1;
      forall j | 0 <= j < |s[n..]| && MatchesAt(m, s[n..][j..])
        ensures f(s[n..][j..]) == g(s[n..][j..])
      {
        assert s[n..][j..] == s[n + j..];
      }
      SubAgree(s[n..], m, f, g);
      assert s[0..] == s;
    }
  }

  /** The first match, at `k`: the text before it is copied, the match replaced, and the
      scan resumes after it. */
  lemma SubAt(s: string, k: nat, m: Matcher, repl: string -> string)
    requires k < |s| && MatchesAt(m, s[k..])
    requires forall j :: 0 <= j < k ==> !MatchesAt(m, s[j..])
    ensures Sub(s, m, repl) == s[..k] + repl(s[k..]) + Sub(s[k + MatchLength(m, s[k..])..], m, repl)
  {
    SubSkips(s, k, m, repl);
    assert s[k..][MatchLength(m, s[k..])..] == s[k + MatchLength(m, s[k..])..];
  }

  /** `SubAt` with the match length and the replacement named by the caller. */
  lemma SubFirst(s: string, k: nat, n: nat, m: Matcher, repl: string -> string, r: string)
    requires k < |s| && MatchesAt(m, s[k..])
    requires forall j :: 0 <= j < k ==> !MatchesAt(m, s[j..])
    requires n == MatchLength(m, s[k..]) && r == repl(s[k..])
    ensures k + n <= |s|
    ensures Sub(s, m, repl) == s[..k] + r + Sub(s[k + n..], m, repl)
  {
    SubSkips(s, k, m, repl);
    var t := s[k..];
    SubHead(t, n, m, repl, r);
    assert t[n..] == s[k + n..];
    assert s[..k] + (r + Sub(t[n..], m, repl)) == s[..k] + r + Sub(t[n..], m, repl);
  }

  /** A match at the start is replaced and the scan goes on after it. */
  lemma SubHead(t: string, n: nat, m: Matcher, repl: string -> string, r: string)
    requires MatchesAt(m, t) && n == MatchLength(m, t) && r == repl(t)
    ensures Sub(t, m, repl) == r + Sub(t[n..], m, repl)
  {
  }

  /** A text that is one match from start to end is replaced as a whole. */
  lemma SubWhole(s: string, m: Matcher, repl: string -> string)
    requires s != [] && MatchesAt(m, s) && MatchLength(m, s) == |s|
    ensures Sub(s, m, repl) == repl(s)
  {
    SubAt(s, 0, m, repl);
    assert s[0..] == s && s[..0] == [] && s[|s|..] == [];
  }

  /** The leftmost match at or after `from` is at `k` when the pattern matches there and
      nowhere between. */
  lemma SearchIs(s: string, m: Matcher, from: nat, k: nat)
    requires from <= k < |s| && MatchesAt(m, s[k..])
    requires forall j :: from <= j < k ==> !MatchesAt(m, s[j..])
    ensures Search(s, m, from) == Some(k)
    decreases k - from
  {
    if from < k {
      SearchIs(s, m, from + 1, k);
    }
  }
}
