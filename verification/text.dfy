/** Character classes and small string helpers shared by every component.
    Strings are sequences of Unicode scalar values, as Python's `str` is. */
module Text {

  import opened Wrappers

  /** Python's `str.isspace`; the same set is what `\s` matches in a `str` pattern. */
  predicate IsSpace(c: char) {
    || ('\t' <= c <= '\r')
    || ('\U{1C}' <= c <= ' ')
    || c == '\U{85}' || c == '\U{A0}' || c == '\U{1680}'
    || ('\U{2000}' <= c <= '\U{200A}')
    || c == '\U{2028}' || c == '\U{2029}' || c == '\U{202F}' || c == '\U{205F}' || c == '\U{3000}'
  }

  /** `\d`, restricted to ASCII digits. */
  predicate IsDigit(c: char) {
    '0' <= c <= '9'
  }

  predicate IsQuote(c: char) {
    c == '"' || c == '\''
  }

  /** The folding the regular-expression engine applies under IGNORECASE, restricted to what
      matters when the pattern letter is an ASCII lower-case letter: the ASCII capitals and
      the four non-ASCII letters that fold onto `i`, `s` and `k`. */
  function Fold(c: char): char {
    if 'A' <= c <= 'Z' then (c as int + 32) as char
    else if c == '\U{130}' || c == '\U{131}' then 'i'
    else if c == '\U{17F}' then 's'
    else if c == '\U{212A}' then 'k'
    else c
  }

  /** ASCII lower-casing. */
  function Lower(s: string): (r: string)
    ensures |r| == |s|
    ensures forall i :: 0 <= i < |s| ==> r[i] == (if 'A' <= s[i] <= 'Z' then (s[i] as int + 32) as char else s[i])
  {
    seq(|s|, i requires 0 <= i < |s| => if 'A' <= s[i] <= 'Z' then (s[i] as int + 32) as char else s[i])
  }

  predicate StartsWith(s: string, prefix: string) {
    |prefix| <= |s| && s[..|prefix|] == prefix
  }

  predicate EndsWith(s: string, suffix: string) {
    |suffix| <= |s| && s[|s| - |suffix|..] == suffix
  }

  /** Case-insensitive prefix test against a lower-case literal. */
  predicate StartsWithCI(s: string, literal: string) {
    |literal| <= |s| && forall i :: 0 <= i < |literal| ==> Fold(s[i]) == literal[i]
  }

  /** Python's `needle in s`. */
  predicate Contains(s: string, needle: string)
    decreases |s|
  {
    StartsWith(s, needle) || (|s| > 0 && Contains(s[1..], needle))
  }

  /** The end of the longest run of characters satisfying `p` that starts at `i`. */
  function RunEnd(s: string, i: nat, p: char -> bool): (j: nat)
    requires i <= |s|
    ensures i <= j <= |s|
    ensures forall k :: i <= k < j ==> p(s[k])
    ensures j < |s| ==> !p(s[j])
    decreases |s| - i
  {
    if i < |s| && p(s[i]) then RunEnd(s, i + 1, p) else i
  }

  /** The end of the whitespace run that starts at `i`. */
  function SkipSpace(s: string, i: nat): (j: nat)
    requires i <= |s|
    ensures i <= j <= |s|
  {
    RunEnd(s, i, IsSpace)
  }

  /** The first index at or after `i` holding `c`, if there is one. */
  function IndexOf(s: string, c: char, i: nat): (r: Option<nat>)
    requires i <= |s|
    ensures r.Some? ==> i <= r.value < |s| && s[r.value] == c
    ensures r.Some? ==> forall k :: i <= k < r.value ==> s[k] != c
    ensures r.None? ==> forall k :: i <= k < |s| ==> s[k] != c
    decreases |s| - i
  {
    if i == |s| then None
    else if s[i] == c then Some(i)
    else IndexOf(s, c, i + 1)
  }

  /** The last index holding `c`, if there is one (Python's `rfind`). */
  function LastIndexOf(s: string, c: char): (r: Option<nat>)
    ensures r.Some? ==> r.value < |s| && s[r.value] == c
    ensures r.Some? ==> forall k :: r.value < k < |s| ==> s[k] != c
    ensures r.None? ==> forall k :: 0 <= k < |s| ==> s[k] != c
    decreases |s|
  {
    if s == [] then None
    else if s[|s| - 1] == c then Some(|s| - 1)
    else LastIndexOf(s[..|s| - 1], c)
  }

  /** The last `c` is at `k` when `s[k]` is `c` and nothing after it is. */
  lemma LastIndexOfIs(s: string, c: char, k: nat)
    requires k < |s| && s[k] == c
    requires forall j :: k < j < |s| ==> s[j] != c
    ensures LastIndexOf(s, c) == Some(k)
  {
  }

  /** Drops the leading characters that satisfy `p` (Python's `lstrip(chars)`). */
  function TrimStart(s: string, p: char -> bool): (r: string)
    ensures |r| <= |s| && r == s[|s| - |r|..]
    ensures forall k :: 0 <= k < |s| - |r| ==> p(s[k])
    ensures r != [] ==> !p(r[0])
    decreases |s|
  {
    if s != [] && p(s[0]) then TrimStart(s[1..], p) else s
  }

  /** Drops the trailing characters that satisfy `p` (Python's `rstrip(chars)`). */
  function TrimEnd(s: string, p: char -> bool): (r: string)
    ensures |r| <= |s| && r == s[..|r|]
    ensures forall k :: |r| <= k < |s| ==> p(s[k])
    ensures r != [] ==> !p(r[|r| - 1])
    decreases |s|
  {
    if s != [] && p(s[|s| - 1]) then TrimEnd(s[..|s| - 1], p) else s
  }

  /** Python's `strip(chars)`. */
  function Trim(s: string, p: char -> bool): string {
    TrimEnd(TrimStart(s, p), p)
  }

  /** Python's `str.strip()`. */
  function Strip(s: string): string {
    Trim(s, IsSpace)
  }

  /** Neither end satisfies `p`. */
  predicate TrimmedBy(s: string, p: char -> bool) {
    s == [] || (!p(s[0]) && !p(s[|s| - 1]))
  }

  /** No whitespace at either end. */
  predicate Stripped(s: string) {
    TrimmedBy(s, IsSpace)
  }

  /** Python's `s[:n]`. */
  function Take(s: string, n: nat): (r: string)
    ensures |r| <= n && StartsWith(s, r)
    ensures |s| <= n ==> r == s
  {
    if |s| <= n then s else s[..n]
  }

  /** The number of leading characters `Trim` removes. */
  function TrimOffset(s: string, p: char -> bool): nat {
    |s| - |TrimStart(s, p)|
  }

  /** `Trim` keeps a slice of its input and removes only characters satisfying `p` around it. */
  lemma TrimSpec(s: string, p: char -> bool)
    ensures TrimmedBy(Trim(s, p), p)
    ensures TrimOffset(s, p) + |Trim(s, p)| <= |s|
    ensures Trim(s, p) == s[TrimOffset(s, p)..TrimOffset(s, p) + |Trim(s, p)|]
    ensures forall k :: 0 <= k < TrimOffset(s, p) ==> p(s[k])
    ensures forall k :: TrimOffset(s, p) + |Trim(s, p)| <= k < |s| ==> p(s[k])
  {
    var a := TrimStart(s, p);
    TrimFacts(s, p, a, TrimEnd(a, p), |s| - |a|);
  }

  /** What the two trims promise, put together. */
  lemma TrimFacts(s: string, p: char -> bool, a: string, r: string, i: nat)
    requires i <= |s| && a == s[i..]
    requires forall k :: 0 <= k < i ==> p(s[k])
    requires a != [] ==> !p(a[0])
    requires |r| <= |a| && r == a[..|r|]
    requires forall k :: |r| <= k < |a| ==> p(a[k])
    requires r != [] ==> !p(r[|r| - 1])
    ensures TrimmedBy(r, p)
    ensures i + |r| <= |s| && r == s[i..i + |r|]
    ensures forall k :: i + |r| <= k < |s| ==> p(s[k])
  {
    if r != [] {
      assert r[0] == a[0];
    }
    forall k | i + |r| <= k < |s|
      ensures p(s[k])
    {
      assert s[k] == a[k - i];
    }
  }

  /** `Strip` keeps a slice of its input and removes only whitespace around it. */
  lemma StripSpec(s: string)
    ensures Stripped(Strip(s))
    ensures TrimOffset(s, IsSpace) + |Strip(s)| <= |s|
    ensures Strip(s) == s[TrimOffset(s, IsSpace)..TrimOffset(s, IsSpace) + |Strip(s)|]
    ensures forall k :: 0 <= k < TrimOffset(s, IsSpace) ==> IsSpace(s[k])
    ensures forall k :: TrimOffset(s, IsSpace) + |Strip(s)| <= k < |s| ==> IsSpace(s[k])
  {
    TrimSpec(s, IsSpace);
  }

  /** A string without surrounding whitespace is its own strip. */
  lemma StripStripped(s: string)
    requires Stripped(s)
    ensures Strip(s) == s
  {
  }

  /** A string whose last character does not satisfy `p` is its own `TrimEnd`. */
  lemma TrimEndKept(s: string, p: char -> bool)
    requires s == [] || !p(s[|s| - 1])
    ensures TrimEnd(s, p) == s
  {
  }

  /** The characters of `s` that do not satisfy `p`, in order. */
  function Without(s: string, p: char -> bool): (r: string)
    ensures |r| <= |s|
    decreases |s|
  {
    if s == [] then [] else (if p(s[0]) then [] else [s[0]]) + Without(s[1..], p)
  }

  lemma {:induction false} WithoutConcat(a: string, b: string, p: char -> bool)
    ensures Without(a + b, p) == Without(a, p) + Without(b, p)
    decreases |a|
  {
    if a != [] {
      assert (a + b)[1..] == a[1..] + b;
      WithoutConcat(a[1..], b, p);
    } else {
      assert a + b == b;
    }
  }

  /** A text made only of characters satisfying `p` has nothing left without them. */
  lemma {:induction false} WithoutAll(s: string, p: char -> bool)
    requires forall i :: 0 <= i < |s| ==> p(s[i])
    ensures Without(s, p) == []
    decreases |s|
  {
    if s != [] {
      WithoutAll(s[1..], p);
    }
  }

  /** Trimming `p` characters keeps every character outside `q` when `q` covers `p`. */
  lemma TrimKeeps(s: string, p: char -> bool, q: char -> bool)
    requires forall c :: p(c) ==> q(c)
    ensures Without(Trim(s, p), q) == Without(s, q)
  {
    TrimSpec(s, p);
    WithoutSlice(s, TrimOffset(s, p), TrimOffset(s, p) + |Trim(s, p)|, q);
  }

  /** Dropping characters satisfying `q` from both ends of a text keeps the characters
      outside `q`. */
  lemma WithoutSlice(s: string, i: nat, j: nat, q: char -> bool)
    requires i <= j <= |s|
    requires forall k :: 0 <= k < i ==> q(s[k])
    requires forall k :: j <= k < |s| ==> q(s[k])
    ensures Without(s[i..j], q) == Without(s, q)
  {
    WithoutDropBack(s, i, j, q);
    WithoutDropFront(s, i, q);
  }

  /** Two texts that differ only in a run of characters satisfying `p` have the same
      characters outside `p`. */
  lemma WithoutGap(head: string, gap: string, sp: string, rest: string, p: char -> bool)
    requires forall i :: 0 <= i < |gap| ==> p(gap[i])
    requires forall i :: 0 <= i < |sp| ==> p(sp[i])
    ensures Without(head + gap + rest, p) == Without(head + sp + rest, p)
  {
    WithoutConcat(head + gap, rest, p);
    WithoutConcat(head, gap, p);
    WithoutAll(gap, p);
    WithoutConcat(head + sp, rest, p);
    WithoutConcat(head, sp, p);
    WithoutAll(sp, p);
  }

  lemma {:induction false} WithoutDropFront(s: string, i: nat, q: char -> bool)
    requires i <= |s|
    requires forall k :: 0 <= k < i ==> q(s[k])
    ensures Without(s[i..], q) == Without(s, q)
    decreases i
  {
    if i > 0 {
      var t := s[1..];
      assert forall k :: 0 <= k < i - 1 ==> t[k] == s[k + 1];
      WithoutDropFront(t, i - 1, q);
      assert t[i - 1..] == s[i..];
    }
  }

  lemma WithoutDropBack(s: string, i: nat, j: nat, q: char -> bool)
    requires i <= j <= |s|
    requires forall k :: j <= k < |s| ==> q(s[k])
    ensures Without(s[i..j], q) == Without(s[i..], q)
  {
    var z := s[j..];
    assert s[i..] == s[i..j] + z;
    WithoutConcat(s[i..j], z, q);
    assert forall k :: 0 <= k < |z| ==> z[k] == s[j + k];
    WithoutAll(z, q);
  }

  /** The run that starts at `i` ends at `j` when everything in between satisfies `p` and
      the character at `j` does not. */
  lemma RunEndIs(s: string, i: nat, p: char -> bool, j: nat)
    requires i <= j <= |s|
    requires forall k :: i <= k < j ==> p(s[k])
    requires j < |s| ==> !p(s[j])
    ensures RunEnd(s, i, p) == j
  {
  }

  /** The first `c` at or after `i` is at `k` when `s[k]` is `c` and nothing between is. */
  lemma IndexOfIs(s: string, c: char, i: nat, k: nat)
    requires i <= k < |s| && s[k] == c
    requires forall j :: i <= j < k ==> s[j] != c
    ensures IndexOf(s, c, i) == Some(k)
  {
  }

  /** Regrouping a concatenation of five pieces. */
  lemma Regroup(a: string, b: string, c: string, d: string, e: string)
    ensures a + (b + c + d) + e == (a + b) + c + (d + e)
  {
  }

  lemma EmptyAround(s: string)
    ensures [] + s + [] == s
  {
  }
}
