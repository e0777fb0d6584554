/** `clean_image_dimensions`: inside `<img ...>` tags, numeric `width`/`height` attributes
    and `width`/`height` style declarations are removed so that the page's style sheet decides
    the size. Each regular expression is a scanner with the same left-to-right, leftmost,
    greedy-or-lazy choices as the pattern it stands for. */
module Dimensions {

  import opened Wrappers
  import opened Text
  import opened Scan
  import Template

  /** `<img`, case-insensitively. */
  predicate ImgOpen(t: string) {
    StartsWithCI(t, "<img")
  }

  /** `[%px]` under IGNORECASE. */
  predicate IsUnitChar(c: char) {
    c == '%' || Fold(c) == 'p' || Fold(c) == 'x'
  }

  /** The end of `\s+<name>=["']?\d+[%px]*["']?` matched at `p`, if it matches there. Every
      part is greedy, and backing off from any of them cannot help the rest match. */
  function DimAttrEnd(t: string, p: nat, name: string): (r: Option<nat>)
    requires p <= |t|
    ensures r.Some? ==> p < r.value <= |t|
  {
    var a := RunEnd(t, p, IsSpace);
    if a == p || !StartsWithCI(t[a..], name + "=") then None
    else
      var b := a + |name| + 1;
      var c := if b < |t| && IsQuote(t[b]) then b + 1 else b;
      var d := RunEnd(t, c, IsDigit);
      if d == c then None
      else
        var e := RunEnd(t, d, IsUnitChar);
        Some(if e < |t| && IsQuote(t[e]) then e + 1 else e)
  }

  /** The characters of `\s`, `\d`, `[%px]` and the quotes are not `>`; nor is anything
      that folds to a character other than `>`. */
  lemma NotCloseChar(c: char)
    ensures IsSpace(c) || IsDigit(c) || IsUnitChar(c) || IsQuote(c) ==> c != '>'
    ensures Fold(c) != '>' ==> c != '>'
  {
  }

  /** An attribute match holds no `>`, so it ends before the tag does. */
  lemma DimAttrNoClose(t: string, p: nat, name: string)
    requires p <= |t| && NoClose(name)
    requires DimAttrEnd(t, p, name).Some?
    ensures forall k :: p <= k < DimAttrEnd(t, p, name).value ==> t[k] != '>'
    ensures forall g :: p <= g < |t| && t[g] == '>' ==> DimAttrEnd(t, p, name).value <= g
  {
    var a := RunEnd(t, p, IsSpace);
    var b := a + |name| + 1;
    var c := if b < |t| && IsQuote(t[b]) then b + 1 else b;
    var d := RunEnd(t, c, IsDigit);
    var e := RunEnd(t, d, IsUnitChar);
    forall k | p <= k < DimAttrEnd(t, p, name).value
      ensures t[k] != '>'
    {
      NotCloseChar(t[k]);
      if a <= k < b {
        NameNoClose(t, a, name, k);
      }
    }
  }

  /** The attribute name and its `=`, matched at `a`, hold no `>`. */
  lemma NameNoClose(t: string, a: nat, name: string, k: nat)
    requires a <= k < a + |name| + 1 && a <= |t| && NoClose(name)
    requires StartsWithCI(t[a..], name + "=")
    ensures t[k] != '>'
  {
    assert Fold(t[a..][k - a]) == (name + "=")[k - a];
    assert t[a..][k - a] == t[k];
    NotCloseChar(t[k]);
  }

  /** The leftmost position in `[p, g)` where the attribute matches, with the end of the
      attribute: the lazy `([^>]*?)` in front of it grows one character at a time. */
  function FindDimAttr(t: string, name: string, p: nat, g: nat): (r: Option<(nat, nat)>)
    requires p <= g < |t| && t[g] == '>'
    requires NoClose(name)
    ensures r.Some? ==> p <= r.value.0 < r.value.1 <= g
    ensures r.Some? ==> DimAttrEnd(t, r.value.0, name) == Some(r.value.1)
    ensures r.Some? ==> forall q :: p <= q < r.value.0 ==> DimAttrEnd(t, q, name).None?
    ensures r.None? ==> forall q :: p <= q < g ==> DimAttrEnd(t, q, name).None?
  {
    var r := FirstHit(p, g, DimAttrAt(t, name));
    DimAttrHit(t, name, p, g);
    if r.Some? then
      DimAttrNoClose(t, r.value.0, name);
      r
    else r
  }

  /** What `FirstHit` promises, in terms of `DimAttrEnd`. */
  lemma DimAttrHit(t: string, name: string, p: nat, g: nat)
    requires p <= g < |t|
    ensures var r := FirstHit(p, g, DimAttrAt(t, name));
            && (r.Some? ==> p <= r.value.0 < g && DimAttrEnd(t, r.value.0, name) == Some(r.value.1))
            && (r.Some? ==> forall q :: p <= q < r.value.0 ==> DimAttrEnd(t, q, name).None?)
            && (r.None? ==> forall q :: p <= q < g ==> DimAttrEnd(t, q, name).None?)
  {
    var f := DimAttrAt(t, name);
    var r := FirstHit(p, g, f);
    if r.Some? {
      assert f(r.value.0) == Some(r.value.1);
    }
    forall q | p <= q < g && (r.None? || q < r.value.0)
      ensures DimAttrEnd(t, q, name).None?
    {
      assert f(q).None?;
    }
  }

  /** `DimAttrEnd` at each position of `t`. */
  function DimAttrAt(t: string, name: string): nat -> Option<nat> {
    (q: nat) => if q <= |t| then DimAttrEnd(t, q, name) else None
  }

  predicate NoClose(name: string) {
    forall i :: 0 <= i < |name| ==> name[i] != '>'
  }

  lemma WidthNoClose()
    ensures NoClose("width")
  {
  }

  /** Where the tag ends and where the attribute sits in it, if the pattern
      `<img([^>]*?)(\s+<name>=["']?\d+[%px]*["']?)([^>]*?)>` matches at the start of `t`. */
  function DimMatch(t: string, name: string): (r: Option<(nat, nat, nat)>)
    requires NoClose(name)
    ensures r.Some? ==> 4 <= r.value.0 < r.value.1 <= r.value.2 < |t| && t[r.value.2] == '>'
  {
    if !ImgOpen(t) then None
    else
      match IndexOf(t, '>', 4)
      case None => None
      case Some(g) =>
        match FindDimAttr(t, name, 4, g)
        case None => None
        case Some(pe) => Some((pe.0, pe.1, g))
  }

  function DimMatcher(name: string): Matcher
    requires NoClose(name)
  {
    t => match DimMatch(t, name) case Some(m) => Some(m.2 + 1) case None => None
  }

  /** The replacement `<img\1\3>`: the tag without the attribute, with `<img` written in
      lower case. */
  function DropDim(name: string, t: string): string
    requires NoClose(name)
  {
    match DimMatch(t, name)
    case Some(m) => "<img" + t[4..m.0] + t[m.1..m.2] + ">"
    case None => t
  }

  function DimDropper(name: string): string -> string
    requires NoClose(name)
  {
    t => DropDim(name, t)
  }

  /** One `re.sub` of the width (or height) pattern over the whole text. */
  function StripDimension(html: string, name: string): string
    requires NoClose(name)
  {
    Sub(html, DimMatcher(name), DimDropper(name))
  }

  /** `<img[^>]+>`: an image tag with at least one character before its first `>`. */
  function ImgTag(): Matcher {
    t => if ImgOpen(t) then
           (match IndexOf(t, '>', 4) case Some(g) => if g > 4 then Some(g + 1) else None case None => None)
         else None
  }

  predicate NotQuote(c: char) {
    !IsQuote(c)
  }

  predicate IsSemicolon(c: char) {
    c == ';'
  }

  predicate NotSemicolon(c: char) {
    c != ';'
  }

  /** `style=["'][^"']*["']` at the start of `t` (case-insensitive when `ci`): the position
      of the closing quote. */
  function StyleValueEnd(t: string, ci: bool): (r: Option<nat>)
    ensures r.Some? ==> 7 <= r.value < |t| && IsQuote(t[r.value])
    ensures r.Some? ==> forall k :: 7 <= k < r.value ==> !IsQuote(t[k])
  {
    if (if ci then StartsWithCI(t, "style=") else StartsWith(t, "style=")) && |t| > 6 && IsQuote(t[6]) then
      var q := RunEnd(t, 7, NotQuote);
      if q < |t| then Some(q) else None
    else None
  }

  function StyleAttr(ci: bool): Matcher {
    t => match StyleValueEnd(t, ci) case Some(q) => Some(q + 1) case None => None
  }

  /** `\s+style=["'][^"']*["']`, case-sensitive. */
  function SpacedStyleAttr(): Matcher {
    t => if t != [] && IsSpace(t[0]) then
           var a := RunEnd(t, 0, IsSpace);
           match StyleValueEnd(t[a..], false) case Some(q) => Some(a + q + 1) case None => None
         else None
  }

  /** `<name>\s*:\s*[^;]+;?` under IGNORECASE. The two whitespace runs and `[^;]+` together
      cover the longest run of non-`;` characters after the colon, which must be non-empty. */
  function DeclMatcher(name: string): Matcher {
    t => if StartsWithCI(t, name) then
           var a := RunEnd(t, |name|, IsSpace);
           if a < |t| && t[a] == ':' then
             var e := RunEnd(t, a + 1, NotSemicolon);
             if e == a + 1 then None else Some(if e < |t| && t[e] == ';' then e + 1 else e)
           else None
         else None
  }

  /** The value of the first `style="..."` attribute of a tag (found case-insensitively) with
      its width and height declarations removed, stripped, and trailing `;` removed; `None`
      when the tag has no quoted style attribute. */
  function CleanedStyle(tag: string): Option<string> {
    match Search(tag, StyleAttr(true), 0)
    case None => None
    case Some(j) =>
      var q := StyleValueEnd(tag[j..], true).value;
      Some(CleanDecls(tag[j..][7..q]))
  }

  /** The width declarations, then the height declarations removed from a style value,
      the result stripped and its trailing `;` removed. */
  function CleanDecls(style: string): string {
    var noWidth := Sub(style, DeclMatcher("width"), Delete);
    var noHeight := Sub(noWidth, DeclMatcher("height"), Delete);
    TrimEnd(Strip(noHeight), IsSemicolon)
  }

  /** `clean_style`, with the cleaned value written into the attribute as it is: every
      exact-case `style="..."` of the tag is replaced by the cleaned one, or, when nothing is
      left, every exact-case ` style="..."` is removed with the whitespace before it. */
  function CleanStyle(tag: string): string {
    match CleanedStyle(tag)
    case None => tag
    case Some(style) =>
      if style != [] then Sub(tag, StyleAttr(false), Constant("style=\"" + style + "\""))
      else Sub(tag, SpacedStyleAttr(), Delete)
  }

  function StyleCleaner(): string -> string {
    t => CleanStyle(Matched(ImgTag(), t))
  }

  /** `clean_image_dimensions`: the width pass, the height pass, then the style pass over
      every image tag. */
  function CleanDims(html: string): string {
    Sub(Dimless(html), ImgTag(), StyleCleaner())
  }

  /** The text after the width pass and the height pass. */
  function Dimless(html: string): string {
    StripDimension(StripDimension(html, "width"), "height")
  }

  // The code as written passes the cleaned style to `re.sub` as a replacement TEMPLATE,
  // which reads backslashes in it as escapes and group references.

  /** `clean_style` as written: the replacement `f'style="{style}"'` is a template, so it is
      read for escapes before any replacement and raises `re.error` when malformed. */
  function CleanStyleAsWritten(tag: string): Option<string> {
    match CleanedStyle(tag)
    case None => Some(tag)
    case Some(style) =>
      if style != [] then
        match Template.Parse("style=\"" + style + "\"")
        case None => None
        case Some(ps) => Some(Sub(tag, StyleAttr(false), ExpandWith(ps)))
      else Some(Sub(tag, SpacedStyleAttr(), Delete))
  }

  function ExpandWith(ps: seq<Template.Piece>): string -> string {
    t => Template.Expand(ps, Matched(StyleAttr(false), t))
  }

  function StyleCleanerAsWritten(): string -> Option<string> {
    t => CleanStyleAsWritten(Matched(ImgTag(), t))
  }

  /** `clean_image_dimensions` as written: `None` where it raises. */
  function CleanDimsAsWritten(html: string): Option<string> {
    SubPartial(Dimless(html), ImgTag(), StyleCleanerAsWritten())
  }

  /** Each pass matches only at an `<img` opening. The tag pattern matches there exactly
      when a `>` follows after at least one other character, and the match ends at the
      first `>`. */
  lemma MatchersNeedImg(t: string, name: string)
    requires NoClose(name)
    ensures MatchesAt(DimMatcher(name), t) ==> ImgOpen(t)
    ensures MatchesAt(ImgTag(), t) <==> ImgOpen(t) && 4 < |t| && t[4] != '>' && exists g :: 4 < g < |t| && t[g] == '>'
    ensures MatchesAt(ImgTag(), t) ==>
              var n := MatchLength(ImgTag(), t);
              5 < n <= |t| && t[n - 1] == '>' && forall k :: 4 <= k < n - 1 ==> t[k] != '>'
  {
    if ImgOpen(t) && 4 < |t| && t[4] != '>' && exists g :: 4 < g < |t| && t[g] == '>' {
      var g :| 4 < g < |t| && t[g] == '>';
      assert IndexOf(t, '>', 4).Some?;
    }
  }

  /** A text without an `<img` opening (in any letter case) is left alone, by the code as
      written as well. */
  lemma NoImgUnchanged(html: string)
    requires forall j :: 0 <= j < |html| ==> !ImgOpen(html[j..])
    ensures CleanDims(html) == html
    ensures CleanDimsAsWritten(html) == Some(html)
  {
    forall j | 0 <= j < |html|
      ensures !MatchesAt(DimMatcher("width"), html[j..]) && !MatchesAt(DimMatcher("height"), html[j..])
      ensures !MatchesAt(ImgTag(), html[j..])
    {
      NoImgNoMatch(html[j..]);
    }
    SubNoMatch(html, DimMatcher("width"), DimDropper("width"));
    SubNoMatch(html, DimMatcher("height"), DimDropper("height"));
    assert Dimless(html) == html;
    SubNoMatch(html, ImgTag(), StyleCleaner());
    SubPartialTotal(html, ImgTag(), StyleCleanerAsWritten(), StyleCleaner());
  }

  /** No pass matches where no `<img` opens. */
  lemma NoImgNoMatch(t: string)
    requires !ImgOpen(t)
    ensures !MatchesAt(DimMatcher("width"), t) && !MatchesAt(DimMatcher("height"), t)
    ensures !MatchesAt(ImgTag(), t)
  {
    MatchersNeedImg(t, "width");
    MatchersNeedImg(t, "height");
  }

  /** One dimension pass on one tag cuts out the leftmost numeric attribute before the tag's
      first `>`, and keeps the rest of the tag. */
  lemma DropDimSpec(name: string, t: string) returns (p: nat, e: nat, g: nat)
    requires NoClose(name) && MatchesAt(DimMatcher(name), t)
    ensures 4 <= p < e <= g < |t|
    ensures g + 1 == MatchLength(DimMatcher(name), t)
    ensures t[g] == '>' && forall k :: 4 <= k < g ==> t[k] != '>'
    ensures DimAttrEnd(t, p, name) == Some(e)
    ensures forall q :: 4 <= q < p ==> DimAttrEnd(t, q, name).None?
    ensures DropDim(name, t) == "<img" + t[4..p] + t[e..g] + ">"
  {
    var m := DimMatch(t, name).value;
    p, e, g := m.0, m.1, m.2;
  }

  /** The tag the second width attribute example starts from, and what one pass leaves. */
  const TwoWidths := "<img width=1 width=2>"
  const OneWidth := "<img width=2>"

  lemma FirstName()
    ensures StartsWithCI(TwoWidths[5..], "width=")
  {
    assert TwoWidths[5..][..6] == "width=";
  }

  /** `width=1` right after `<img ` is an attribute ending at position 12. */
  lemma FirstAttr()
    ensures DimAttrEnd(TwoWidths, 4, "width") == Some(12)
  {
    FirstName();
    FirstRuns();
    DimAttrEndAt(TwoWidths, 4, "width", 5, 12);
  }

  lemma FirstRuns()
    ensures RunEnd(TwoWidths, 4, IsSpace) == 5
    ensures RunEnd(TwoWidths, 11, IsDigit) == 12
    ensures RunEnd(TwoWidths, 12, IsUnitChar) == 12
  {
    RunEndIs(TwoWidths, 4, IsSpace, 5);
    RunEndIs(TwoWidths, 11, IsDigit, 12);
    RunEndIs(TwoWidths, 12, IsUnitChar, 12);
  }

  /** An unquoted attribute with a number and no unit, after whitespace from `p` to `a`,
      ends where the number does. */
  lemma DimAttrEndAt(t: string, p: nat, name: string, a: nat, d: nat)
    requires p < a <= |t| && RunEnd(t, p, IsSpace) == a && StartsWithCI(t[a..], name + "=")
    requires a + |name| + 1 < d <= |t| && !IsQuote(t[a + |name| + 1])
    requires RunEnd(t, a + |name| + 1, IsDigit) == d && RunEnd(t, d, IsUnitChar) == d
    requires d < |t| ==> !IsQuote(t[d])
    ensures DimAttrEnd(t, p, name) == Some(d)
  {
  }

  lemma SecondAttr()
    ensures DimAttrEnd(OneWidth, 4, "width") == Some(12)
  {
    SecondName();
    SecondRuns();
    DimAttrEndAt(OneWidth, 4, "width", 5, 12);
  }

  lemma SecondName()
    ensures StartsWithCI(OneWidth[5..], "width=")
  {
    assert OneWidth[5..][..6] == "width=";
  }

  lemma SecondRuns()
    ensures RunEnd(OneWidth, 4, IsSpace) == 5
    ensures RunEnd(OneWidth, 11, IsDigit) == 12
    ensures RunEnd(OneWidth, 12, IsUnitChar) == 12
  {
    RunEndIs(OneWidth, 4, IsSpace, 5);
    RunEndIs(OneWidth, 11, IsDigit, 12);
    RunEndIs(OneWidth, 12, IsUnitChar, 12);
  }

  lemma FirstFind()
    ensures FindDimAttr(TwoWidths, "width", 4, 20) == Some((4, 12))
  {
    WidthNoClose();
    FirstAttr();
  }

  lemma FirstClose()
    ensures ImgOpen(TwoWidths) && IndexOf(TwoWidths, '>', 4) == Some(20)
  {
    IndexOfIs(TwoWidths, '>', 4, 20);
  }

  lemma FirstMatch()
    ensures DimMatch(TwoWidths, "width") == Some((4, 12, 20))
  {
    WidthNoClose();
    FirstClose();
    FirstFind();
  }

  lemma SecondMatch()
    ensures DimMatch(OneWidth, "width") == Some((4, 12, 12))
  {
    WidthNoClose();
    SecondClose();
    SecondAttr();
  }

  lemma SecondClose()
    ensures ImgOpen(OneWidth) && IndexOf(OneWidth, '>', 4) == Some(12)
  {
    IndexOfIs(OneWidth, '>', 4, 12);
  }

  lemma FirstDrop()
    ensures DropDim("width", TwoWidths) == OneWidth
  {
    WidthNoClose();
    FirstMatch();
    DropPieces();
  }

  lemma DropPieces()
    ensures "<img" + TwoWidths[4..4] + TwoWidths[12..20] + ">" == OneWidth
  {
    assert TwoWidths[4..4] == [];
    assert TwoWidths[12..20] == " width=2";
  }

  lemma SecondDrop()
    ensures DropDim("width", OneWidth) == "<img>"
  {
    WidthNoClose();
    SecondMatch();
  }

  /** One pass over `<img width=1 width=2>` removes the first width attribute only. */
  lemma FirstWidthPass()
    ensures StripDimension(TwoWidths, "width") == OneWidth
  {
    WidthNoClose();
    FirstMatch();
    FirstDrop();
    WholeTagPass(TwoWidths, "width");
  }

  /** A second pass over the result removes the remaining one. */
  lemma SecondWidthPass()
    ensures StripDimension(OneWidth, "width") == "<img>"
  {
    WidthNoClose();
    SecondMatch();
    SecondDrop();
    WholeTagPass(OneWidth, "width");
  }

  /** A text that is one whole matching tag is replaced by that tag with the attribute
      dropped. */
  lemma WholeTagPass(t: string, name: string)
    requires NoClose(name)
    requires DimMatch(t, name).Some? && DimMatch(t, name).value.2 == |t| - 1
    ensures StripDimension(t, name) == DropDim(name, t)
  {
    SubWhole(t, DimMatcher(name), DimDropper(name));
  }

  /** The width pass is not idempotent: a tag with two width attributes loses one per pass. */
  lemma DimensionPassNotIdempotent()
    ensures StripDimension(StripDimension(TwoWidths, "width"), "width") != StripDimension(TwoWidths, "width")
  {
    WidthNoClose();
    FirstWidthPass();
    SecondWidthPass();
  }

  /** A tag in which nothing before its first `>` folds to the first letter of `name` has no
      `name` attribute to lose. */
  lemma FindDimAttrNone(t: string, name: string, p: nat, g: nat)
    requires p <= g < |t| && t[g] == '>' && NoClose(name) && name != []
    requires forall k :: p <= k < g ==> Fold(t[k]) != name[0]
    ensures FindDimAttr(t, name, p, g).None?
  {
    forall q | p <= q < g
      ensures DimAttrEnd(t, q, name).None?
    {
      NoAttrAt(t, name, q, g);
    }
  }

  /** No attribute starts at `q` when the first character after the whitespace there cannot
      start `name`. */
  lemma NoAttrAt(t: string, name: string, q: nat, g: nat)
    requires q < g < |t| && t[g] == '>' && NoClose(name) && name != []
    requires forall k :: q <= k < g ==> Fold(t[k]) != name[0]
    ensures DimAttrEnd(t, q, name).None?
  {
    var a := RunEnd(t, q, IsSpace);
    assert !IsSpace(t[g]);
    assert a <= g;
    assert Fold(t[a]) != name[0] by {
      assert Fold('>') == '>';
    }
    assert !StartsWithCI(t[a..], name + "=") by {
      assert t[a..][0] == t[a];
      assert (name + "=")[0] == name[0];
    }
  }

  /** When the cleaned style holds no backslash, reading the replacement as a template
      changes nothing: the code as written and the corrected one agree. */
  lemma CleanStyleAgrees(tag: string)
    requires CleanedStyle(tag).Some? ==> Template.NoBackslash(CleanedStyle(tag).value)
    ensures CleanStyleAsWritten(tag) == Some(CleanStyle(tag))
  {
    match CleanedStyle(tag)
    case None =>
    case Some(style) =>
      if style != [] {
        var lit := "style=\"" + style + "\"";
        StylePlain(style);
        Template.ParseLiteral(lit, []);
        var ps := Template.Parse(lit).value;
        forall j | 0 <= j < |tag| && MatchesAt(StyleAttr(false), tag[j..])
          ensures ExpandWith(ps)(tag[j..]) == Constant(lit)(tag[j..])
        {
          Template.ParseLiteral(lit, Matched(StyleAttr(false), tag[j..]));
        }
        SubAgree(tag, StyleAttr(false), ExpandWith(ps), Constant(lit));
      }
  }

  /** A cleaned style holding `\5` followed by anything but a digit makes the code as
      written raise: `\5` is a reference to a group the pattern does not have. */
  lemma GroupReferenceInStyle(tag: string, pre: string, post: string)
    requires CleanedStyle(tag) == Some(pre + "\\5" + post)
    requires Template.NoBackslash(pre)
    requires post == [] || !IsDigit(post[0])
    ensures CleanStyleAsWritten(tag).None?
  {
    var style := pre + "\\5" + post;
    TemplateFails(pre, post);
    assert style != [];
  }

  /** The replacement written for a style holding `\5` (and no backslash before it) is not a
      valid template. */
  lemma TemplateFails(pre: string, post: string)
    requires Template.NoBackslash(pre)
    requires post == [] || !IsDigit(post[0])
    ensures Template.Parse("style=\"" + (pre + "\\5" + post) + "\"").None?
  {
    var head := "style=\"" + pre;
    HeadPlain(pre);
    var t := head + "\\5" + (post + "\"");
    Template.GroupReferenceFails(head, post + "\"");
    Regroup("style=\"", pre, "\\5", post, "\"");
  }

  lemma StylePlain(style: string)
    requires Template.NoBackslash(style)
    ensures Template.NoBackslash("style=\"" + style + "\"")
  {
    var lit := "style=\"" + style + "\"";
    forall i | 0 <= i < |lit|
      ensures lit[i] != '\\'
    {
      if 7 <= i < 7 + |style| {
        assert lit[i] == style[i - 7];
      }
    }
  }

  lemma HeadPlain(pre: string)
    requires Template.NoBackslash(pre)
    ensures Template.NoBackslash("style=\"" + pre)
  {
    var head := "style=\"" + pre;
    forall i | 0 <= i < |head|
      ensures head[i] != '\\'
    {
      if 7 <= i {
        assert head[i] == pre[i - 7];
      }
    }
  }

  /** The image tag of the counterexample: a style whose value is a CSS escape. The lemmas
      about it take the tag as a parameter equal to it, so that the solver unfolds the scans
      over it step by step rather than evaluating them on the literal. */
  const EscapedStyleTag := "<img style=\"\\5\">"

  /** Neither style pattern matches where the text does not start with `s` (or `S`). */
  lemma NotStyleAt(u: string)
    requires u != [] && Fold(u[0]) != 's'
    ensures !MatchesAt(StyleAttr(true), u) && !MatchesAt(StyleAttr(false), u)
  {
  }

  /** The exact-case style pattern does not match where the text does not start with `s`. */
  lemma NotExactStyleAt(u: string)
    requires u != [] && u[0] != 's'
    ensures !MatchesAt(StyleAttr(false), u)
  {
  }

  /** Neither tag pattern matches where the text does not start with `<`. */
  lemma NotImgAt(u: string, name: string)
    requires u != [] && u[0] != '<' && NoClose(name)
    ensures !MatchesAt(DimMatcher(name), u) && !MatchesAt(ImgTag(), u)
  {
    assert Fold(u[0]) != '<';
  }

  lemma EscapedStyleValue(t: string)
    requires t == EscapedStyleTag
    ensures StyleValueEnd(t[5..], true) == Some(9) && StyleValueEnd(t[5..], false) == Some(9)
  {
    assert t[5..][..6] == "style=";
    RunEndIs(t[5..], 7, NotQuote, 9);
  }

  lemma EscapedStyleFound(t: string)
    requires t == EscapedStyleTag
    ensures Search(t, StyleAttr(true), 0) == Some(5)
  {
    EscapedStyleValue(t);
    forall j | 0 <= j < 5
      ensures !MatchesAt(StyleAttr(true), t[j..])
    {
      assert t[j..][0] == t[j];
      NotStyleAt(t[j..]);
    }
    SearchIs(t, StyleAttr(true), 0, 5);
  }

  /** No declaration fits in a text shorter than the property name. */
  lemma ShortNoDecl(style: string, name: string)
    requires |style| < |name|
    ensures forall j :: 0 <= j < |style| ==> !MatchesAt(DeclMatcher(name), style[j..])
  {
  }

  /** A style value too short to hold a declaration, with no whitespace at its ends and
      no `;` at its end, is already clean. */
  lemma ShortStyleClean(style: string)
    requires |style| < 5 && Stripped(style)
    requires style == [] || style[|style| - 1] != ';'
    ensures CleanDecls(style) == style
  {
    ShortNoDecl(style, "width");
    ShortNoDecl(style, "height");
    SubNoMatch(style, DeclMatcher("width"), Delete);
    SubNoMatch(style, DeclMatcher("height"), Delete);
    StripStripped(style);
    TrimEndKept(style, IsSemicolon);
  }

  /** A declaration the style passes remove: the property name in any letter case,
      whitespace, `:`, then a non-empty run without `;`. The match ends at the first `;`,
      which it takes, or at the end of the text. */
  lemma DeclShape(t: string, name: string) returns (a: nat, e: nat)
    requires MatchesAt(DeclMatcher(name), t)
    ensures StartsWithCI(t, name)
    ensures |name| <= a && a + 1 < e <= |t| && t[a] == ':'
    ensures forall k :: |name| <= k < a ==> IsSpace(t[k])
    ensures forall k :: a + 1 <= k < e ==> t[k] != ';'
    ensures e == |t| || t[e] == ';'
    ensures MatchLength(DeclMatcher(name), t) == if e < |t| then e + 1 else e
  {
    a := RunEnd(t, |name|, IsSpace);
    e := RunEnd(t, a + 1, NotSemicolon);
  }

  /** Conversely, the name, whitespace, `:` and a character other than `;` make a
      declaration. */
  lemma DeclFound(t: string, name: string, a: nat)
    requires StartsWithCI(t, name) && |name| <= a && a + 1 < |t|
    requires forall k :: |name| <= k < a ==> IsSpace(t[k])
    requires t[a] == ':' && t[a + 1] != ';'
    ensures MatchesAt(DeclMatcher(name), t)
  {
    RunEndIs(t, |name|, IsSpace, a);
  }

  /** A declaration pass deletes the first declaration, at `j`, keeps what comes before it,
      and goes on after it. */
  lemma DeclRemovedAt(s: string, name: string, j: nat) returns (n: nat)
    requires j < |s| && MatchesAt(DeclMatcher(name), s[j..])
    requires forall i :: 0 <= i < j ==> !MatchesAt(DeclMatcher(name), s[i..])
    ensures n == MatchLength(DeclMatcher(name), s[j..])
    ensures j + n <= |s|
    ensures Sub(s, DeclMatcher(name), Delete) == s[..j] + Sub(s[j + n..], DeclMatcher(name), Delete)
  {
    n := MatchLength(DeclMatcher(name), s[j..]);
    SubFirst(s, j, n, DeclMatcher(name), Delete, []);
    assert s[..j] + [] == s[..j];
  }

  /** Without a declaration the pass changes nothing. */
  lemma DeclsNone(s: string, name: string)
    requires forall j :: 0 <= j < |s| ==> !MatchesAt(DeclMatcher(name), s[j..])
    ensures Sub(s, DeclMatcher(name), Delete) == s
  {
    SubNoMatch(s, DeclMatcher(name), Delete);
  }

  /** No declaration starts where a letter of the name is missing. */
  lemma NotDeclAt(t: string, name: string, k: nat)
    requires k < |name| && k < |t| && Fold(t[k]) != name[k]
    ensures !MatchesAt(DeclMatcher(name), t)
  {
  }

  /** A declaration closed by a `;` is matched up to and including that `;`. */
  lemma DeclEndsAt(t: string, name: string, a: nat, e: nat)
    requires StartsWithCI(t, name) && |name| <= a && a + 1 < e < |t|
    requires forall k :: |name| <= k < a ==> IsSpace(t[k])
    requires t[a] == ':' && t[e] == ';'
    requires forall k :: a + 1 <= k < e ==> t[k] != ';'
    ensures MatchesAt(DeclMatcher(name), t)
    ensures MatchLength(DeclMatcher(name), t) == e + 1
  {
    RunEndIs(t, |name|, IsSpace, a);
    RunEndIs(t, a + 1, NotSemicolon, e);
  }

  /** One pass can leave a declaration it would remove: deleting `width:1;` from
      `widwidth:1;th:2` joins `wid` and `th:2` into the declaration `width:2`. */
  lemma DeclPassLeavesDecl(head: string, decl: string, tail: string)
    requires head == "wid" && decl == "width:1;" && tail == "th:2"
    ensures Sub(head + decl + tail, DeclMatcher("width"), Delete) == head + tail
    ensures MatchesAt(DeclMatcher("width"), head + tail)
  {
    NoDeclInWid(head, decl, tail);
    WidthDecl(decl + tail, decl, tail);
    DeleteAfter(head, decl, tail, DeclMatcher("width"));
    ShortNoDecl(tail, "width");
    DeclsNone(tail, "width");
    JoinedDecl(head, tail);
  }

  /** A deletion pass over `head + decl + tail` that finds nothing in `head` and matches
      exactly `decl` keeps `head` and goes on with `tail`. */
  lemma DeleteAfter(head: string, decl: string, tail: string, m: Matcher)
    requires forall i :: 0 <= i < |head| ==> !MatchesAt(m, (head + decl + tail)[i..])
    requires MatchesAt(m, decl + tail) && MatchLength(m, decl + tail) == |decl|
    ensures Sub(head + decl + tail, m, Delete) == head + Sub(tail, m, Delete)
  {
    var s := head + decl + tail;
    var k := |head|;
    assert s[k..] == decl + tail;
    SubFirst(s, k, |decl|, m, Delete, []);
    assert s[..k] + [] == head;
    assert s[k + |decl|..] == tail;
  }

  /** No declaration starts in `wid` when `width:1;` follows it. */
  lemma NoDeclInWid(head: string, decl: string, tail: string)
    requires head == "wid" && decl == "width:1;"
    ensures forall i :: 0 <= i < |head| ==> !MatchesAt(DeclMatcher("width"), (head + decl + tail)[i..])
  {
    var s := head + decl + tail;
    forall i | 0 <= i < |head|
      ensures !MatchesAt(DeclMatcher("width"), s[i..])
    {
      if i == 0 {
        assert s[i..][3] == decl[0];
        NotDeclAt(s[i..], "width", 3);
      } else {
        assert s[i..][0] == head[i];
        NotDeclAt(s[i..], "width", 0);
      }
    }
  }

  /** A text in which no character folds onto the first letter of the name holds no
      declaration of it. */
  lemma NoNameLetter(t: string, name: string)
    requires name != [] && forall i :: 0 <= i < |t| ==> Fold(t[i]) != name[0]
    ensures forall j :: 0 <= j < |t| ==> !MatchesAt(DeclMatcher(name), t[j..])
  {
    forall j | 0 <= j < |t|
      ensures !MatchesAt(DeclMatcher(name), t[j..])
    {
      NotDeclAt(t[j..], name, 0);
    }
  }

  /** The width declaration of `width:1;color:red` is removed and the rest is kept. */
  lemma WidthDeclCleaned(decl: string, rest: string)
    requires decl == "width:1;" && rest == "color:red"
    ensures CleanDecls(decl + rest) == rest
  {
    WidthDecl(decl + rest, decl, rest);
    ColorRed(rest);
    DeclCleaned(decl, rest);
  }

  /** `color:red` holds no `w` or `h`, and has no whitespace or `;` at its ends. */
  lemma ColorRed(rest: string)
    requires rest == "color:red"
    ensures forall i :: 0 <= i < |rest| ==> Fold(rest[i]) != 'w' && Fold(rest[i]) != 'h'
    ensures Stripped(rest) && rest[|rest| - 1] != ';'
  {
  }

  /** A leading width declaration is removed from a clean rest without width or height. */
  lemma DeclCleaned(decl: string, rest: string)
    requires MatchesAt(DeclMatcher("width"), decl + rest) && MatchLength(DeclMatcher("width"), decl + rest) == |decl|
    requires forall i :: 0 <= i < |rest| ==> Fold(rest[i]) != 'w' && Fold(rest[i]) != 'h'
    requires Stripped(rest) && (rest == [] || rest[|rest| - 1] != ';')
    ensures CleanDecls(decl + rest) == rest
  {
    var s := decl + rest;
    var n := DeclRemovedAt(s, "width", 0);
    assert s[n..] == rest;
    NoNameLetter(rest, "width");
    DeclsNone(rest, "width");
    var noWidth := Sub(s, DeclMatcher("width"), Delete);
    assert noWidth == rest;
    NoNameLetter(rest, "height");
    DeclsNone(rest, "height");
    var noHeight := Sub(noWidth, DeclMatcher("height"), Delete);
    assert noHeight == rest;
    StripStripped(rest);
    TrimEndKept(rest, IsSemicolon);
    assert CleanDecls(s) == TrimEnd(Strip(noHeight), IsSemicolon);
  }

  /** `width:1;` is one whole declaration, whatever follows it. */
  lemma WidthDecl(t: string, decl: string, tail: string)
    requires decl == "width:1;" && t == decl + tail
    ensures MatchesAt(DeclMatcher("width"), t)
    ensures MatchLength(DeclMatcher("width"), t) == 8
  {
    assert forall i :: 0 <= i < 8 ==> t[i] == decl[i];
    assert StartsWithCI(t, "width");
    DeclEndsAt(t, "width", 5, 7);
  }

  /** `wid` followed by `th:2` is a declaration. */
  lemma JoinedDecl(head: string, tail: string)
    requires head == "wid" && tail == "th:2"
    ensures MatchesAt(DeclMatcher("width"), head + tail)
  {
    var r := head + tail;
    assert r[..5] == "width";
    DeclFound(r, "width", 5);
  }

  /** The match of a whitespace-led, exact-case `style="..."`: whitespace up to `a`, then
      `style=`, a quote, characters other than quotes, and a closing quote. */
  lemma SpacedStyleShape(t: string) returns (a: nat)
    requires MatchesAt(SpacedStyleAttr(), t)
    ensures 0 < a && a + 8 <= MatchLength(SpacedStyleAttr(), t)
    ensures forall k :: 0 <= k < a ==> IsSpace(t[k])
    ensures t[a..a + 6] == "style=" && IsQuote(t[a + 6])
    ensures forall k :: a + 7 <= k < MatchLength(SpacedStyleAttr(), t) - 1 ==> !IsQuote(t[k])
    ensures IsQuote(t[MatchLength(SpacedStyleAttr(), t) - 1])
  {
    a := RunEnd(t, 0, IsSpace);
    var u := t[a..];
    var q := StyleValueEnd(u, false).value;
    assert u[..6] == "style=";
    assert forall k :: 0 <= k <= q ==> u[k] == t[a + k];
  }

  /** The match of an exact-case `style="..."`: `style=`, a quote, characters other than
      quotes, and a closing quote. */
  lemma StyleShape(t: string)
    requires MatchesAt(StyleAttr(false), t)
    ensures 8 <= MatchLength(StyleAttr(false), t)
    ensures t[..6] == "style=" && IsQuote(t[6])
    ensures forall k :: 7 <= k < MatchLength(StyleAttr(false), t) - 1 ==> !IsQuote(t[k])
    ensures IsQuote(t[MatchLength(StyleAttr(false), t) - 1])
  {
  }

  /** When nothing is left of the cleaned style, the first whitespace-led, exact-case
      `style="..."` of the tag, at `j`, is removed with its whitespace, what comes before it
      is kept, and the removal goes on after it. */
  lemma StyleDroppedAt(tag: string, j: nat) returns (n: nat)
    requires CleanedStyle(tag) == Some([])
    requires j < |tag| && MatchesAt(SpacedStyleAttr(), tag[j..])
    requires forall i :: 0 <= i < j ==> !MatchesAt(SpacedStyleAttr(), tag[i..])
    ensures n == MatchLength(SpacedStyleAttr(), tag[j..])
    ensures j + n <= |tag|
    ensures CleanStyle(tag) == tag[..j] + Sub(tag[j + n..], SpacedStyleAttr(), Delete)
  {
    n := MatchLength(SpacedStyleAttr(), tag[j..]);
    SubFirst(tag, j, n, SpacedStyleAttr(), Delete, []);
    assert tag[..j] + [] == tag[..j];
  }

  /** When nothing is left of the cleaned style and the tag has no whitespace-led,
      exact-case `style="..."`, the tag is kept. */
  lemma StyleDroppedNone(tag: string)
    requires CleanedStyle(tag) == Some([])
    requires forall j :: 0 <= j < |tag| ==> !MatchesAt(SpacedStyleAttr(), tag[j..])
    ensures CleanStyle(tag) == tag
  {
    SubNoMatch(tag, SpacedStyleAttr(), Delete);
  }

  /** A non-empty cleaned style is written in place of the first exact-case `style="..."`
      of the tag, at `j`; what comes before it is kept, and the writing goes on after it. */
  lemma StyleWrittenAt(tag: string, style: string, j: nat) returns (n: nat)
    requires CleanedStyle(tag) == Some(style) && style != []
    requires j < |tag| && MatchesAt(StyleAttr(false), tag[j..])
    requires forall i :: 0 <= i < j ==> !MatchesAt(StyleAttr(false), tag[i..])
    ensures n == MatchLength(StyleAttr(false), tag[j..])
    ensures j + n <= |tag|
    ensures CleanStyle(tag) == tag[..j] + ("style=\"" + style + "\"") + Sub(tag[j + n..], StyleAttr(false), Constant("style=\"" + style + "\""))
  {
    var w := "style=\"" + style + "\"";
    assert CleanStyle(tag) == Sub(tag, StyleAttr(false), Constant(w));
    n := MatchLength(StyleAttr(false), tag[j..]);
    SubFirst(tag, j, n, StyleAttr(false), Constant(w), w);
  }

  /** A tag whose style attribute is not written in exact case keeps it as it is. */
  lemma StyleWrittenNone(tag: string, style: string)
    requires CleanedStyle(tag) == Some(style) && style != []
    requires forall j :: 0 <= j < |tag| ==> !MatchesAt(StyleAttr(false), tag[j..])
    ensures CleanStyle(tag) == tag
  {
    SubNoMatch(tag, StyleAttr(false), Constant("style=\"" + style + "\""));
  }

  lemma EscapedStyleText(t: string)
    requires t == EscapedStyleTag
    ensures t[5..][7..9] == "\\5"
  {
  }

  lemma EscapedStyleCleaned(t: string)
    requires t == EscapedStyleTag
    ensures CleanedStyle(t) == Some("\\5")
  {
    EscapedStyleFound(t);
    EscapedStyleValue(t);
    EscapedStyleText(t);
    ShortStyleClean("\\5");
  }

  /** The replacement the corrected `clean_style` writes for the counterexample is the
      attribute the tag already has. */
  lemma EscapedStyleAttr(t: string)
    requires t == EscapedStyleTag
    ensures t[5..][..10] == "style=\"" + "\\5" + "\""
  {
    assert t[5..][..10] == "style=\"\\5\"";
  }

  /** The exact-case style pattern matches the counterexample only where its attribute is. */
  lemma EscapedStyleOnce(t: string)
    requires t == EscapedStyleTag
    ensures forall j :: 0 <= j < |t| && j != 5 ==> !MatchesAt(StyleAttr(false), t[j..])
  {
    forall j | 0 <= j < |t| && j != 5
      ensures !MatchesAt(StyleAttr(false), t[j..])
    {
      assert t[j..][0] == t[j];
      NotExactStyleAt(t[j..]);
    }
  }

  /** The corrected `clean_style` leaves the tag as it is: its style has nothing to remove. */
  lemma EscapedStyleKept(t: string)
    requires t == EscapedStyleTag
    ensures CleanStyle(t) == t
  {
    var lit := "style=\"" + "\\5" + "\"";
    EscapedStyleCleaned(t);
    EscapedStyleValue(t);
    EscapedStyleAttr(t);
    EscapedStyleOnce(t);
    assert forall j :: 0 <= j < |t| ==> Keeps(StyleAttr(false), Constant(lit), t[j..]);
    SubKeeps(t, StyleAttr(false), Constant(lit));
  }

  /** No tag pattern matches the counterexample after its first character. */
  lemma EscapedStyleOneTag(t: string, name: string)
    requires t == EscapedStyleTag && NoClose(name)
    ensures forall j :: 1 <= j < |t| ==> !MatchesAt(DimMatcher(name), t[j..])
  {
    forall j | 1 <= j < |t|
      ensures !MatchesAt(DimMatcher(name), t[j..])
    {
      assert t[j..][0] == t[j];
      NotImgAt(t[j..], name);
    }
  }

  lemma EscapedStyleNoDims(t: string, name: string)
    requires t == EscapedStyleTag && (name == "width" || name == "height")
    ensures StripDimension(t, name) == t
  {
    IndexOfIs(t, '>', 4, 15);
    FindDimAttrNone(t, name, 4, 15);
    assert !MatchesAt(DimMatcher(name), t[0..]);
    EscapedStyleOneTag(t, name);
    SubNoMatch(t, DimMatcher(name), DimDropper(name));
  }

  lemma EscapedStyleWhole(t: string)
    requires t == EscapedStyleTag
    ensures MatchesAt(ImgTag(), t) && Matched(ImgTag(), t) == t
  {
    IndexOfIs(t, '>', 4, 15);
    assert t[..16] == t;
  }

  /** The counterexample: the code as written raises on `<img style="\5">`, while the
      corrected pass returns the tag unchanged. */
  lemma EscapedStyleRaises(t: string)
    requires t == EscapedStyleTag
    ensures CleanStyleAsWritten(t).None?
    ensures CleanDimsAsWritten(t).None?
    ensures CleanDims(t) == t
  {
    EscapedStyleCleaned(t);
    EmptyAround("\\5");
    GroupReferenceInStyle(t, [], []);
    EscapedStyleNoDims(t, "width");
    EscapedStyleNoDims(t, "height");
    EscapedStyleWhole(t);
    SubPartialFails(t, ImgTag(), StyleCleanerAsWritten());
    EscapedStyleKept(t);
    SubWhole(t, ImgTag(), StyleCleaner());
  }

  /** No image tag of `t` has a cleaned style holding a backslash. */
  predicate StylesPlain(t: string) {
    forall j :: 0 <= j < |t| && MatchesAt(ImgTag(), t[j..]) && CleanedStyle(Matched(ImgTag(), t[j..])).Some? ==>
      Template.NoBackslash(CleanedStyle(Matched(ImgTag(), t[j..])).value)
  }

  /** Wherever no image tag's cleaned style holds a backslash, `clean_image_dimensions` as
      written succeeds with the corrected result. */
  lemma CleanDimsAgrees(html: string)
    requires StylesPlain(Dimless(html))
    ensures CleanDimsAsWritten(html) == Some(CleanDims(html))
  {
    StylePassAgrees(Dimless(html));
  }

  /** The style pass as written succeeds with the corrected result on a text whose image
      tags have no cleaned style holding a backslash. */
  lemma StylePassAgrees(t: string)
    requires StylesPlain(t)
    ensures SubPartial(t, ImgTag(), StyleCleanerAsWritten()) == Some(Sub(t, ImgTag(), StyleCleaner()))
  {
    CleanersAgree(t);
    SubPartialTotal(t, ImgTag(), StyleCleanerAsWritten(), StyleCleaner());
  }

  /** Where no image tag's cleaned style holds a backslash, the two style cleaners agree at
      every image tag. */
  lemma CleanersAgree(t: string)
    requires StylesPlain(t)
    ensures forall j :: 0 <= j < |t| && MatchesAt(ImgTag(), t[j..]) ==>
              StyleCleanerAsWritten()(t[j..]) == Some(StyleCleaner()(t[j..]))
  {
    forall j | 0 <= j < |t| && MatchesAt(ImgTag(), t[j..])
      ensures StyleCleanerAsWritten()(t[j..]) == Some(StyleCleaner()(t[j..]))
    {
      CleanStyleAgrees(Matched(ImgTag(), t[j..]));
    }
  }
}
