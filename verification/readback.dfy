/** The index reads back what the converters wrote: a page's `<title>` holds the escaped
    subject, and the first subject pattern of the index finds it and decodes it to the
    subject again, provided the subject has no apostrophe (written `&#x27;` by the
    converters, a reference the index does not read), no surrounding whitespace, and the
    title ends within the first 5000 characters. */
module Readback {

  import opened Wrappers
  import opened Text
  import opened Scan
  import opened HtmlEscape
  import opened Fields
  import Entities

  predicate NoApostrophe(s: string) {
    forall i :: 0 <= i < |s| ==> s[i] != '\''
  }

  /** Apart from the apostrophe, `html.escape` writes the references the index decodes. */
  lemma EscapeCharEncoded(c: char)
    requires c != '\''
    ensures EscapeChar(c) == Entities.EncodeChar(Entities.FullTable, c)
  {
    var t := Entities.FullTable;
    assert t[1..][1..][1..][1..][1..] == [];
  }

  lemma {:induction false} EscapeIsEncode(s: string)
    requires NoApostrophe(s)
    ensures Escape(s) == Entities.Encode(Entities.FullTable, s)
    decreases |s|
  {
    if s != [] {
      EscapeCharEncoded(s[0]);
      EscapeIsEncode(s[1..]);
    }
  }

  /** The escape of one character starts and ends with a character that is not whitespace
      when the character itself is not. */
  lemma EscapeCharEnds(c: char)
    requires !IsSpace(c)
    ensures EscapeChar(c) != [] && !IsSpace(EscapeChar(c)[0]) && !IsSpace(EscapeChar(c)[|EscapeChar(c)| - 1])
  {
  }

  /** Escaping a stripped text gives a stripped text. */
  lemma EscapeStripped(s: string)
    requires Stripped(s)
    ensures Stripped(Escape(s))
  {
    if s != [] {
      var n := |s|;
      EscapeCharEnds(s[0]);
      EscapeCharEnds(s[n - 1]);
      assert s == s[..n - 1] + [s[n - 1]];
      EscapeConcat(s[..n - 1], [s[n - 1]]);
      assert [s[n - 1]][1..] == [];
      assert Escape([s[n - 1]]) == EscapeChar(s[n - 1]);
    }
  }

  /** The lazy group ends at `k` when it can end there and at no earlier position. */
  lemma GroupEndIs(t: string, e: nat, pat: FieldPattern, k: nat)
    requires e <= k <= |t| && ClosesAt(t, k, pat)
    requires forall j :: e <= j < k ==> !ClosesAt(t, j, pat)
    ensures GroupEnd(t, e, pat) == Some(k)
  {
    GroupEndBy(t, e, pat, k);
    var v := GroupEnd(t, e, pat).value;
    assert ClosesAt(t, v, pat);
  }

  /** The lazy group ends at `k` or before when it can end at `k`. */
  lemma GroupEndBy(t: string, e: nat, pat: FieldPattern, k: nat)
    requires e <= k <= |t| && ClosesAt(t, k, pat)
    ensures GroupEnd(t, e, pat).Some? && GroupEnd(t, e, pat).value <= k
  {
  }

  const Title := FieldPattern("<title>", false, "</title>")

  lemma StartsWithTitle(t: string, u: string)
    requires u == "<title>" && StartsWith(t, u)
    ensures StartsWithCI(t, u)
  {
    assert forall i :: 0 <= i < |u| ==> t[i] == u[i];
  }

  /** A text without `<` between `<title>` and `</title>` is the group of the title
      pattern. */
  lemma TitleSpans(t: string, v: string, rest: string)
    requires forall i :: 0 <= i < |v| ==> v[i] != '<'
    requires t == "<title>" + v + "</title>" + rest
    ensures Spans(t, Title) == Some((7, 7 + |v|, 15 + |v|))
    ensures Group(t, Title) == v
  {
    var k := 7 + |v|;
    assert t[..7] == "<title>";
    StartsWithTitle(t, "<title>");
    assert t[k..][..8] == "</title>";
    StartsWithClose(t[k..], "</title>");
    forall j | 7 <= j < k
      ensures !ClosesAt(t, j, Title)
    {
      assert t[j] == v[j - 7];
      FoldOpen(t[j]);
    }
    GroupEndIs(t, 7, Title, k);
    assert t[7..k] == v;
  }

  lemma StartsWithClose(t: string, u: string)
    requires u == "</title>" && StartsWith(t, u)
    ensures StartsWithCI(t, u)
  {
    assert forall i :: 0 <= i < |u| ==> t[i] == u[i];
  }

  /** No `<title>`, in any letter case, starts inside `pre`. */
  predicate NoTitleTag(pre: string) {
    forall j :: 0 <= j < |pre| ==> !StartsWithCI(pre[j..], Title.lead)
  }

  /** A text that does not start with the lead of a pattern is not matched by it. */
  lemma NoLeadNoMatch(t: string, pat: FieldPattern)
    requires !StartsWithCI(t, pat.lead)
    ensures !MatchesAt(FieldMatcher(pat), t)
  {
    assert Spans(t, pat).None?;
  }

  /** `<title>` does not start at a position of `pre` when `pre` is followed by `<`: either
      it would lie inside `pre`, or it would need that `<` to be one of its letters. */
  lemma NoTitleAt(c: string, pre: string, j: nat)
    requires NoTitleTag(pre) && j < |pre| && StartsWith(c, pre + "<")
    ensures !StartsWithCI(c[j..], Title.lead)
  {
    var u := c[j..];
    var p := |pre|;
    if j + 7 <= p {
      forall i | 0 <= i < 7
        ensures u[i] == pre[j..][i]
      {
        assert c[j + i] == (pre + "<")[j + i];
      }
      assert !StartsWithCI(pre[j..], Title.lead);
    } else {
      var k := p - j;
      assert u[k] == (pre + "<")[p] == '<';
      assert Title.lead[k] != '<';
      assert Fold(u[k]) != Title.lead[k];
    }
  }

  /** The first 5000 characters of a page whose title ends within them. */
  lemma WindowPage(content: string, pre: string, v: string, rest: string)
    requires content == pre + "<title>" + v + "</title>" + rest
    requires |pre| + |v| + 15 <= Window
    ensures var c := Take(content, Window);
            && |pre| + |v| + 15 <= |c|
            && StartsWith(c, pre + "<")
            && c[|pre|..] == "<title>" + v + "</title>" + c[|pre| + 15 + |v|..]
  {
    var c := Take(content, Window);
    var p := |pre|;
    assert c == content[..|c|];
    assert c[..p + 1] == pre + "<";
    assert c[p..] == "<title>" + v + "</title>" + c[p + 15 + |v|..];
  }

  /** The title pattern finds the title of a page when no `<title>`, in any letter case,
      starts before it. */
  lemma TitleFound(content: string, pre: string, v: string, rest: string)
    requires NoTitleTag(pre)
    requires forall i :: 0 <= i < |v| ==> v[i] != '<'
    requires content == pre + "<title>" + v + "</title>" + rest
    requires |pre| + |v| + 15 <= Window
    ensures Find(content, Title) == Some(v)
  {
    var c := Take(content, Window);
    var p := |pre|;
    WindowPage(content, pre, v, rest);
    TitleSpans(c[p..], v, c[p + 15 + |v|..]);
    forall j | 0 <= j < p
      ensures !MatchesAt(FieldMatcher(Title), c[j..])
    {
      NoTitleAt(c, pre, j);
      NoLeadNoMatch(c[j..], Title);
    }
    SearchIs(c, FieldMatcher(Title), 0, p);
  }

  /** The subject a converter writes into the title of a page is the subject the index reads
      from it. The head the converters write before the title has its `<` only before `!`,
      `h` and `m`, so it is a `pre` this lemma applies to. */
  lemma SubjectReadBack(content: string, pre: string, s: string, rest: string)
    requires NoTitleTag(pre) && NoApostrophe(s) && Entities.NoAmpersand(s) && Stripped(s) && Good(s)
    requires content == pre + "<title>" + Escape(s) + "</title>" + rest
    requires |pre| + |Escape(s)| + 15 <= Window
    ensures SubjectValue(content) == s
  {
    TitleFound(content, pre, Escape(s), rest);
    EscapeStripped(s);
    EscapeIsEncode(s);
    Entities.FullTableChain();
    Entities.ChainEncode(Entities.FullTable, s);
    var vals := Values(Entities.FullTable, content, SubjectPatterns);
    assert vals[0] == Some(s);
  }
}
