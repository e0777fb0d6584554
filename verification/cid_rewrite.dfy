/** `replace_cid_references`: `cid:` references in `src`, `href` and `background` attributes
    are pointed at the `data:` URIs of the image index, and the image dimensions are then
    cleaned unless the caller asks to keep them. */
module CidRewrite {

  import opened Wrappers
  import opened Text
  import opened Scan
  import Dimensions

  /** `[^"'\s>]`: a character of a Content-ID reference. */
  predicate IdChar(c: char) {
    !IsQuote(c) && !IsSpace(c) && c != '>'
  }

  /** Where the id of `<attr>=["']?cid:([^"'\s>]+)["']?` sits and where the match ends, when
      the pattern matches at the start of `t` under IGNORECASE. The id run is greedy and the
      optional quotes never need to back off. `attr` is a lower-case ASCII name. */
  function RefSpan(t: string, attr: string): (r: Option<(nat, nat, nat)>)
    ensures r.Some? ==> |attr| + 5 <= r.value.0 < r.value.1 <= r.value.2 <= |t|
    ensures r.Some? ==> forall k :: r.value.0 <= k < r.value.1 ==> IdChar(t[k])
  {
    if !StartsWithCI(t, attr + "=") then None
    else
      var a := |attr| + 1;
      var b := if a < |t| && IsQuote(t[a]) then a + 1 else a;
      if !StartsWithCI(t[b..], "cid:") then None
      else
        var c := b + 4;
        var d := RunEnd(t, c, IdChar);
        if d == c then None
        else Some((c, d, if d < |t| && IsQuote(t[d]) then d + 1 else d))
  }

  function RefMatcher(attr: string): Matcher {
    t => match RefSpan(t, attr) case Some(s) => Some(s.2) case None => None
  }

  /** The id a match captures: group 1. */
  function RefId(t: string, attr: string): string {
    match RefSpan(t, attr)
    case Some(s) => t[s.0..s.1]
    case None => []
  }

  /** The URI an id resolves to: the key `cid:<id>` is tried before the bare id. */
  function Lookup(images: map<string, string>, id: string): (r: Option<string>)
    ensures r.Some? <==> "cid:" + id in images || id in images
    ensures "cid:" + id in images ==> r == Some(images["cid:" + id])
    ensures "cid:" + id !in images && id in images ==> r == Some(images[id])
  {
    if "cid:" + id in images then Some(images["cid:" + id])
    else if id in images then Some(images[id])
    else None
  }

  /** `replace_match`: a resolved reference becomes `<attr>="<uri>"` (with the attribute name
      in lower case and the value always double-quoted); an unresolved one is returned as it
      was matched. */
  function Resolve(images: map<string, string>, attr: string, t: string): string {
    match Lookup(images, RefId(t, attr))
    case Some(uri) => attr + "=\"" + uri + "\""
    case None => Matched(RefMatcher(attr), t)
  }

  function Resolver(images: map<string, string>, attr: string): string -> string {
    t => Resolve(images, attr, t)
  }

  /** One `re.sub` of the reference pattern for `attr`. */
  function RewriteAttr(html: string, images: map<string, string>, attr: string): string {
    Sub(html, RefMatcher(attr), Resolver(images, attr))
  }

  /** The three passes, in the order `src`, `href`, `background`. */
  function RewriteRefs(html: string, images: map<string, string>): string {
    RewriteAttr(RewriteAttr(RewriteAttr(html, images, "src"), images, "href"), images, "background")
  }

  /** `replace_cid_references(html, images, preserve_dimensions)`. */
  function ReplaceCidReferences(html: string, images: map<string, string>, preserve: bool): (r: string)
    ensures html == [] || images == map[] ==> r == html
  {
    if html == [] || images == map[] then html
    else
      var linked := RewriteRefs(html, images);
      if preserve then linked else Dimensions.CleanDims(linked)
  }

  /** The same with `clean_image_dimensions` as written, which may raise: `None` then. */
  function ReplaceCidReferencesAsWritten(html: string, images: map<string, string>, preserve: bool): (r: Option<string>)
    ensures html == [] || images == map[] ==> r == Some(html)
  {
    if html == [] || images == map[] then Some(html)
    else
      var linked := RewriteRefs(html, images);
      if preserve then Some(linked) else Dimensions.CleanDimsAsWritten(linked)
  }

  /** A match whose id is not in the index is left exactly as it was. */
  lemma UnresolvedKept(images: map<string, string>, attr: string, t: string)
    requires MatchesAt(RefMatcher(attr), t)
    requires Lookup(images, RefId(t, attr)).None?
    ensures Resolve(images, attr, t) == t[..MatchLength(RefMatcher(attr), t)]
  {
  }

  /** A pass over a text whose every reference is unknown to the index changes nothing. */
  lemma UnknownIdsUntouched(html: string, images: map<string, string>, attr: string)
    requires forall j :: 0 <= j < |html| && MatchesAt(RefMatcher(attr), html[j..]) ==>
               Lookup(images, RefId(html[j..], attr)).None?
    ensures RewriteAttr(html, images, attr) == html
  {
    forall j | 0 <= j < |html|
      ensures Keeps(RefMatcher(attr), Resolver(images, attr), html[j..])
    {
      if MatchesAt(RefMatcher(attr), html[j..]) {
        UnresolvedKept(images, attr, html[j..]);
      }
    }
    SubKeeps(html, RefMatcher(attr), Resolver(images, attr));
  }

  /** A pass over the whole text, at its first reference: the text before it is copied, the
      reference becomes `<attr>="<uri>"` with the URI stored under `cid:<id>` when there is
      one and the one stored under the bare id otherwise, or stays as it was when neither is
      stored, and the pass goes on after the reference. */
  lemma FirstRefRewritten(html: string, images: map<string, string>, attr: string, j: nat) returns (id: string, n: nat)
    requires j < |html| && MatchesAt(RefMatcher(attr), html[j..])
    requires forall i :: 0 <= i < j ==> !MatchesAt(RefMatcher(attr), html[i..])
    ensures id == RefId(html[j..], attr)
    ensures n == MatchLength(RefMatcher(attr), html[j..])
    ensures j + n <= |html|
    ensures "cid:" + id in images ==>
              RewriteAttr(html, images, attr) ==
              html[..j] + attr + "=\"" + images["cid:" + id] + "\"" + RewriteAttr(html[j + n..], images, attr)
    ensures "cid:" + id !in images && id in images ==>
              RewriteAttr(html, images, attr) ==
              html[..j] + attr + "=\"" + images[id] + "\"" + RewriteAttr(html[j + n..], images, attr)
    ensures "cid:" + id !in images && id !in images ==>
              RewriteAttr(html, images, attr) == html[..j + n] + RewriteAttr(html[j + n..], images, attr)
  {
    var t := html[j..];
    var s := RefSpan(t, attr).value;
    id, n := t[s.0..s.1], s.2;
    assert RefId(t, attr) == id;
    assert MatchLength(RefMatcher(attr), t) == n;
    RewriteAtFirst(html, images, attr, j, n);
    var r := Resolve(images, attr, t);
    var after := RewriteAttr(html[j + n..], images, attr);
    ResolveCases(images, attr, t);
    assert RewriteAttr(html, images, attr) == html[..j] + r + after;
    if "cid:" + id in images {
      assert r == attr + "=\"" + images["cid:" + id] + "\"";
      Regroup(html[..j], attr, images["cid:" + id], after);
    } else if id in images {
      assert r == attr + "=\"" + images[id] + "\"";
      Regroup(html[..j], attr, images[id], after);
    } else {
      assert r == t[..n];
      assert html[..j] + t[..n] == html[..j + n];
    }
  }

  /** What `replace_match` gives for each outcome of the lookup. */
  lemma ResolveCases(images: map<string, string>, attr: string, t: string)
    requires MatchesAt(RefMatcher(attr), t)
    ensures "cid:" + RefId(t, attr) in images ==>
              Resolve(images, attr, t) == attr + "=\"" + images["cid:" + RefId(t, attr)] + "\""
    ensures "cid:" + RefId(t, attr) !in images && RefId(t, attr) in images ==>
              Resolve(images, attr, t) == attr + "=\"" + images[RefId(t, attr)] + "\""
    ensures "cid:" + RefId(t, attr) !in images && RefId(t, attr) !in images ==>
              Resolve(images, attr, t) == t[..MatchLength(RefMatcher(attr), t)]
  {
  }

  lemma Regroup(p: string, attr: string, uri: string, after: string)
    ensures p + (attr + "=\"" + uri + "\"") + after == p + attr + "=\"" + uri + "\"" + after
  {
  }

  lemma RewriteAtFirst(html: string, images: map<string, string>, attr: string, j: nat, n: nat)
    requires j < |html| && MatchesAt(RefMatcher(attr), html[j..])
    requires forall i :: 0 <= i < j ==> !MatchesAt(RefMatcher(attr), html[i..])
    requires n == MatchLength(RefMatcher(attr), html[j..])
    ensures j + n <= |html|
    ensures RewriteAttr(html, images, attr) ==
              html[..j] + Resolve(images, attr, html[j..]) + RewriteAttr(html[j + n..], images, attr)
  {
    SubFirst(html, j, n, RefMatcher(attr), Resolver(images, attr), Resolve(images, attr, html[j..]));
  }

  /** The id of a match is a non-empty run of reference characters that follows `cid:`
      (in any letter case) right after the attribute, its `=` and an optional quote. */
  lemma RefIdShape(t: string, attr: string)
    requires MatchesAt(RefMatcher(attr), t)
    ensures var s := RefSpan(t, attr).value;
            && StartsWithCI(t, attr + "=")
            && (s.0 == |attr| + 5 || (s.0 == |attr| + 6 && IsQuote(t[|attr| + 1])))
            && StartsWithCI(t[s.0 - 4..], "cid:")
            && RefId(t, attr) != []
            && (forall k :: 0 <= k < |RefId(t, attr)| ==> IdChar(RefId(t, attr)[k]))
            && (s.1 < |t| ==> !IdChar(t[s.1]))
  {
  }

  /** A rewritten reference is no longer a reference: a URI that does not itself start with
      `cid:` is not matched again by a later pass over the same attribute. */
  lemma RewrittenNotRef(attr: string, uri: string)
    requires attr != [] && forall k :: 0 <= k < |attr| ==> attr[k] != '='
    requires uri == [] || Fold(uri[0]) != 'c'
    ensures !MatchesAt(RefMatcher(attr), attr + "=\"" + uri + "\"")
  {
    var t := attr + "=\"" + uri + "\"";
    var a := |attr| + 1;
    assert t[a] == '"';
    if uri != [] {
      assert t[a + 1..][0] == uri[0];
    } else {
      assert t[a + 1..][0] == '"';
    }
  }

  /** An unquoted upper-case reference is rewritten to a quoted lower-case attribute:
      `SRC=cid:a` becomes `src="U"` when `cid:a` is stored as `U`. */
  lemma UpperCaseUnquoted(t: string, images: map<string, string>)
    requires t == "SRC=cid:a" && images == map["cid:a" := "U"]
    ensures RewriteAttr(t, images, "src") == "src=\"U\""
  {
    assert StartsWithCI(t, "src=");
    assert t[4..][..4] == "cid:";
    RunEndIs(t, 8, IdChar, 9);
    assert RefSpan(t, "src") == Some((8, 9, 9));
    assert RefId(t, "src") == "a";
    assert "cid:" + "a" == "cid:a";
    assert Lookup(images, "a") == Some("U");
    assert "src" + "=\"" + "U" + "\"" == "src=\"U\"";
    SubWhole(t, RefMatcher("src"), Resolver(images, "src"));
  }

  /** The CID step as written succeeds with the corrected result wherever the dimension
      passes leave no image tag whose cleaned style holds a backslash. */
  lemma AsWrittenAgrees(html: string, images: map<string, string>, preserve: bool)
    requires var t := RewriteRefs(html, images);
             Dimensions.StylesPlain(Dimensions.Dimless(t))
    ensures ReplaceCidReferencesAsWritten(html, images, preserve) == Some(ReplaceCidReferences(html, images, preserve))
  {
    Dimensions.CleanDimsAgrees(RewriteRefs(html, images));
  }

  /** No reference to `attr` starts where the text does not start with the attribute's
      first two letters. */
  lemma NotRefAt(u: string, attr: string)
    requires |attr| >= 2
    requires u == [] || Fold(u[0]) != attr[0] || (|u| >= 2 && Fold(u[1]) != attr[1])
    ensures !MatchesAt(RefMatcher(attr), u)
  {
    if u != [] && Fold(u[0]) == attr[0] {
      assert (attr + "=")[1] == attr[1];
    } else if u != [] {
      assert (attr + "=")[0] == attr[0];
    }
  }

  lemma EscapedStyleNoRef(t: string, attr: string)
    requires t == Dimensions.EscapedStyleTag
    requires attr == "src" || attr == "href" || attr == "background"
    ensures forall j :: 0 <= j < |t| ==> !MatchesAt(RefMatcher(attr), t[j..])
  {
    forall j | 0 <= j < |t|
      ensures !MatchesAt(RefMatcher(attr), t[j..])
    {
      assert t[j..][0] == t[j];
      if j + 1 < |t| {
        assert t[j..][1] == t[j + 1];
      }
      NotRefAt(t[j..], attr);
    }
  }

  /** The tag of the dimension counterexample holds no reference, so the CID passes hand
      it to the dimension cleaning as it is, where the code as written raises. */
  lemma EscapedStyleCidRaises(t: string, images: map<string, string>)
    requires t == Dimensions.EscapedStyleTag && images != map[]
    ensures ReplaceCidReferencesAsWritten(t, images, false).None?
    ensures ReplaceCidReferences(t, images, false) == t
  {
    EscapedStyleNoRef(t, "src");
    SubNoMatch(t, RefMatcher("src"), Resolver(images, "src"));
    EscapedStyleNoRef(t, "href");
    SubNoMatch(t, RefMatcher("href"), Resolver(images, "href"));
    EscapedStyleNoRef(t, "background");
    SubNoMatch(t, RefMatcher("background"), Resolver(images, "background"));
    Dimensions.EscapedStyleRaises(t);
  }
}
