/** How `extract_email_info` reads a header value back from a page: a list of patterns of the
    shape `<lead>\s*(.*?)\s*<close>` (or `<lead>(.*?)<close>` for the title), each searched
    for with IGNORECASE and DOTALL in the first 5000 characters; the captured value is
    stripped and its character references decoded by a chain of replacements, one entity
    after the other, and the first pattern whose value is neither empty nor `Unknown`
    wins. */
module Fields {

  import opened Wrappers
  import opened Text
  import opened Scan
  import Entities

  /** A pattern: a literal (lower-case ASCII, compared under IGNORECASE), whether `\s*`
      surrounds the lazy group, and the literal that must follow. */
  datatype FieldPattern = FieldPattern(lead: string, spaced: bool, close: string)

  predicate ValidPattern(pat: FieldPattern) {
    pat.lead != [] && pat.close != [] && pat.close[0] == '<'
  }

  const Window := 5000
  const Unknown := "Unknown"

  const SubjectPatterns: seq<FieldPattern> := [
    FieldPattern("<title>", false, "</title>"),
    FieldPattern("subject:</span>", true, "</div>"),
    FieldPattern("subject:</span>", true, "<"),
    FieldPattern("<span class=\"header-label\">subject:</span>", true, "</div>"),
    FieldPattern("subject:", true, "<")]

  const FromPatterns: seq<FieldPattern> := [
    FieldPattern("from:</span>", true, "</div>"),
    FieldPattern("from:</span>", true, "<"),
    FieldPattern("<span class=\"header-label\">from:</span>", true, "</div>"),
    FieldPattern("from:", true, "<")]

  const DatePatterns: seq<FieldPattern> := [
    FieldPattern("date:</span>", true, "</div>"),
    FieldPattern("date:</span>", true, "<"),
    FieldPattern("<span class=\"header-label\">date:</span>", true, "</div>"),
    FieldPattern("date:", true, "<")]

  /** Where the text after the group would have to start for the close literal to follow:
      after the whitespace run at `e` when the pattern is spaced. Since the close literal
      starts with `<`, the trailing `\s*` can only end at the end of that run. */
  function CloseFrom(t: string, e: nat, pat: FieldPattern): (w: nat)
    requires e <= |t|
    ensures e <= w <= |t|
  {
    if pat.spaced then SkipSpace(t, e) else e
  }

  /** The group can end at `e`: the close literal follows it (after whitespace if spaced). */
  predicate ClosesAt(t: string, e: nat, pat: FieldPattern)
    requires e <= |t|
  {
    StartsWithCI(t[CloseFrom(t, e, pat)..], pat.close)
  }

  /** The lazy group ends at the first position from `e` on where it can end. */
  function GroupEnd(t: string, e: nat, pat: FieldPattern): (r: Option<nat>)
    requires e <= |t|
    ensures r.Some? ==> e <= r.value <= |t| && ClosesAt(t, r.value, pat)
    ensures r.Some? ==> forall k :: e <= k < r.value ==> !ClosesAt(t, k, pat)
    ensures r.None? ==> forall k :: e <= k <= |t| ==> !ClosesAt(t, k, pat)
    decreases |t| - e
  {
    if ClosesAt(t, e, pat) then Some(e)
    else if e == |t| then None
    else GroupEnd(t, e + 1, pat)
  }

  /** The spans of a match anchored at the start of `t`: where the group starts and ends and
      where the match ends. The leading `\s*` takes the whole whitespace run: giving some of
      it back could only let the group end inside that run, where the close cannot follow
      unless it also follows the run. */
  function Spans(t: string, pat: FieldPattern): (r: Option<(nat, nat, nat)>)
    ensures r.Some? ==> r.value.0 <= r.value.1 <= r.value.2 <= |t| && 0 < r.value.2
  {
    if !(pat.lead != [] && StartsWithCI(t, pat.lead)) then None
    else
      var a := CloseFrom(t, |pat.lead|, pat);
      match GroupEnd(t, a, pat)
      case None => None
      case Some(e) =>
        var w := CloseFrom(t, e, pat);
        Some((a, e, w + |pat.close|))
  }

  function FieldMatcher(pat: FieldPattern): Matcher {
    t => match Spans(t, pat) case Some(s) => Some(s.2) case None => None
  }

  /** `match.group(1)` of a match anchored at the start of `t`. */
  function Group(t: string, pat: FieldPattern): string {
    match Spans(t, pat)
    case Some(s) => t[s.0..s.1]
    case None => []
  }

  /** `re.search(pattern, content[:5000], re.IGNORECASE | re.DOTALL)`, giving the group. */
  function Find(content: string, pat: FieldPattern): Option<string> {
    var c := Take(content, Window);
    match Search(c, FieldMatcher(pat), 0)
    case Some(p) => Some(Group(c[p..], pat))
    case None => None
  }

  /** The value a matching pattern gives: the group stripped, then each entity of the table
      replaced in turn, as the chain of `.replace` calls does. */
  function Value(table: seq<Entities.Entity>, content: string, pat: FieldPattern): Option<string> {
    match Find(content, pat)
    case Some(g) => Some(Entities.DecodeAsWritten(table, Strip(g)))
    case None => None
  }

  function Values(table: seq<Entities.Entity>, content: string, pats: seq<FieldPattern>): (r: seq<Option<string>>)
    ensures |r| == |pats|
    ensures forall i :: 0 <= i < |pats| ==> r[i] == Value(table, content, pats[i])
  {
    seq(|pats|, i requires 0 <= i < |pats| => Value(table, content, pats[i]))
  }

  /** A value that ends the search. */
  predicate Good(v: string) {
    v != [] && v != Unknown
  }

  /** The loop over the patterns: a match assigns its value, and a good value ends the
      loop. */
  function Pick(vals: seq<Option<string>>, current: string): string
    decreases |vals|
  {
    if vals == [] then current
    else match vals[0]
      case None => Pick(vals[1..], current)
      case Some(v) => if Good(v) then v else Pick(vals[1..], v)
  }

  /** The position of the first good value. */
  function FirstGood(vals: seq<Option<string>>): (r: Option<nat>)
    ensures r.Some? ==> r.value < |vals| && vals[r.value].Some? && Good(vals[r.value].value)
    ensures r.Some? ==> forall j :: 0 <= j < r.value ==> !(vals[j].Some? && Good(vals[j].value))
    ensures r.None? ==> forall j :: 0 <= j < |vals| ==> !(vals[j].Some? && Good(vals[j].value))
    decreases |vals|
  {
    if vals == [] then None
    else if vals[0].Some? && Good(vals[0].value) then Some(0)
    else
      var r := FirstGood(vals[1..]);
      assert forall j :: 1 <= j < |vals| ==> vals[j] == vals[1..][j - 1];
      match r
      case Some(i) => Some(i + 1)
      case None => None
  }

  /** The position of the last pattern that matched. */
  function LastFound(vals: seq<Option<string>>): (r: Option<nat>)
    ensures r.Some? ==> r.value < |vals| && vals[r.value].Some?
    ensures r.Some? ==> forall j :: r.value < j < |vals| ==> vals[j].None?
    ensures r.None? ==> forall j :: 0 <= j < |vals| ==> vals[j].None?
    decreases |vals|
  {
    if vals == [] then None
    else
      var r := LastFound(vals[1..]);
      assert forall j :: 1 <= j < |vals| ==> vals[j] == vals[1..][j - 1];
      match r
      case Some(i) => Some(i + 1)
      case None => if vals[0].Some? then Some(0) else None
  }

  /** The loop stated without the loop: the first good value if there is one; otherwise the
      value of the last pattern that matched; otherwise the initial value. */
  lemma {:induction false} PickSpec(vals: seq<Option<string>>, current: string)
    ensures Pick(vals, current) ==
              match FirstGood(vals)
              case Some(i) => vals[i].value
              case None =>
                match LastFound(vals)
                case Some(j) => vals[j].value
                case None => current
    decreases |vals|
  {
    if vals != [] {
      var next := if vals[0].Some? then vals[0].value else current;
      PickSpec(vals[1..], next);
    }
  }

  /** The three header values as the page gives them, before the subject fallback. */
  function SubjectValue(content: string): string {
    Pick(Values(Entities.FullTable, content, SubjectPatterns), Unknown)
  }

  function FromValue(content: string): string {
    Pick(Values(Entities.FullTable, content, FromPatterns), Unknown)
  }

  function DateValue(content: string): string {
    Pick(Values(Entities.ShortTable, content, DatePatterns), Unknown)
  }

  /** One step of the whitespace run: skipping from a space is skipping from the next
      position. */
  lemma SkipSpaceStep(t: string, e: nat)
    requires 0 < e <= |t| && IsSpace(t[e - 1])
    ensures SkipSpace(t, e - 1) == SkipSpace(t, e)
  {
  }

  /** For a spaced pattern, a close that follows a group ending in whitespace also follows
      the group without that whitespace. */
  lemma CloseOverSpace(t: string, e: nat, pat: FieldPattern)
    requires pat.spaced && 0 < e <= |t| && ClosesAt(t, e, pat)
    ensures IsSpace(t[e - 1]) ==> ClosesAt(t, e - 1, pat)
  {
    if IsSpace(t[e - 1]) {
      SkipSpaceStep(t, e);
    }
  }

  /** The group of a spaced pattern is already stripped: it starts after the whitespace run
      and, as the shortest group the close can follow, does not end with whitespace. */
  lemma GroupStripped(t: string, pat: FieldPattern)
    requires pat.spaced && Spans(t, pat).Some?
    ensures Stripped(Group(t, pat))
  {
    var s := Spans(t, pat).value;
    var g := Group(t, pat);
    assert g == t[s.0..s.1];
    if g != [] {
      assert s.0 == SkipSpace(t, |pat.lead|);
      assert g[0] == t[s.0];
      assert g[|g| - 1] == t[s.1 - 1];
      CloseOverSpace(t, s.1, pat);
    }
  }

  /** Every pattern of the three lists closes with a literal starting with `<`. */
  lemma PatternsValid()
    ensures forall i :: 0 <= i < |SubjectPatterns| ==> ValidPattern(SubjectPatterns[i])
    ensures forall i :: 0 <= i < |FromPatterns| ==> ValidPattern(FromPatterns[i])
    ensures forall i :: 0 <= i < |DatePatterns| ==> ValidPattern(DatePatterns[i])
  {
  }

  predicate NoOpen(t: string) {
    forall i :: 0 <= i < |t| ==> t[i] != '<'
  }

  /** Only `<` folds onto `<`. */
  lemma FoldOpen(c: char)
    ensures Fold(c) == '<' <==> c == '<'
  {
  }

  /** Without a `<` the close literal follows nowhere. */
  lemma NoOpenNoClose(t: string, e: nat, pat: FieldPattern)
    requires ValidPattern(pat) && NoOpen(t) && e <= |t|
    ensures !ClosesAt(t, e, pat)
  {
    var w := CloseFrom(t, e, pat);
    if w < |t| {
      FoldOpen(t[w]);
      assert t[w..][0] == t[w];
    }
  }

  /** A text without `<` is matched by no pattern. */
  lemma NoOpenNoMatch(t: string, pat: FieldPattern)
    requires ValidPattern(pat) && NoOpen(t)
    ensures !MatchesAt(FieldMatcher(pat), t)
  {
    forall k | 0 <= k <= |t|
      ensures !ClosesAt(t, k, pat)
    {
      NoOpenNoClose(t, k, pat);
    }
    assert Spans(t, pat).None?;
  }

  /** A page whose first 5000 characters hold no `<` gives no value for any pattern. */
  lemma NoOpenNoValue(table: seq<Entities.Entity>, content: string, pat: FieldPattern)
    requires ValidPattern(pat) && NoOpen(Take(content, Window))
    ensures Value(table, content, pat).None?
  {
    var c := Take(content, Window);
    forall j | 0 <= j < |c|
      ensures !MatchesAt(FieldMatcher(pat), c[j..])
    {
      NoOpenNoMatch(c[j..], pat);
    }
  }

  /** When no pattern matches, the loop leaves the initial value. */
  lemma NothingFound(vals: seq<Option<string>>, current: string)
    requires forall i :: 0 <= i < |vals| ==> vals[i].None?
    ensures Pick(vals, current) == current
  {
    PickSpec(vals, current);
  }

  /** Such a page shows `Unknown` for the three headers. */
  lemma NoOpenUnknown(content: string)
    requires NoOpen(Take(content, Window))
    ensures SubjectValue(content) == Unknown
    ensures FromValue(content) == Unknown
    ensures DateValue(content) == Unknown
  {
    PatternsValid();
    forall i | 0 <= i < |SubjectPatterns|
      ensures Value(Entities.FullTable, content, SubjectPatterns[i]).None?
    {
      NoOpenNoValue(Entities.FullTable, content, SubjectPatterns[i]);
    }
    NothingFound(Values(Entities.FullTable, content, SubjectPatterns), Unknown);
    forall i | 0 <= i < |FromPatterns|
      ensures Value(Entities.FullTable, content, FromPatterns[i]).None?
    {
      NoOpenNoValue(Entities.FullTable, content, FromPatterns[i]);
    }
    NothingFound(Values(Entities.FullTable, content, FromPatterns), Unknown);
    forall i | 0 <= i < |DatePatterns|
      ensures Value(Entities.ShortTable, content, DatePatterns[i]).None?
    {
      NoOpenNoValue(Entities.ShortTable, content, DatePatterns[i]);
    }
    NothingFound(Values(Entities.ShortTable, content, DatePatterns), Unknown);
  }
}
