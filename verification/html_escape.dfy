/** `html.escape(s, quote=True)`, which the converters apply to header values, plain-text
    bodies and attachment names, and its inverse. */
module HtmlEscape {

  import opened Text

  /** The replacement of one character: the five characters HTML treats specially become
      character references; all others stand for themselves. */
  function EscapeChar(c: char): string {
    if c == '&' then "&amp;"
    else if c == '<' then "&lt;"
    else if c == '>' then "&gt;"
    else if c == '"' then "&quot;"
    else if c == '\'' then "&#x27;"
    else [c]
  }

  /** None of the characters that end a text run or an attribute value. */
  predicate Inert(s: string) {
    forall i :: 0 <= i < |s| ==> s[i] != '<' && s[i] != '>' && s[i] != '"' && s[i] != '\''
  }

  /** `html.escape(s)`: every character replaced by `EscapeChar`, left to right. The result
      holds no `<`, `>`, `"` or `'`, so it can sit inside an element or a quoted attribute. */
  function Escape(s: string): (r: string)
    ensures Inert(r)
    ensures |r| >= |s|
    decreases |s|
  {
    if s == [] then [] else EscapeChar(s[0]) + Escape(s[1..])
  }

  /** Reads the five character references `Escape` writes, left to right, each once. */
  function Unescape(s: string): string
    decreases |s|
  {
    if s == [] then []
    else if StartsWith(s, "&amp;") then "&" + Unescape(s[5..])
    else if StartsWith(s, "&lt;") then "<" + Unescape(s[4..])
    else if StartsWith(s, "&gt;") then ">" + Unescape(s[4..])
    else if StartsWith(s, "&quot;") then "\"" + Unescape(s[6..])
    else if StartsWith(s, "&#x27;") then "'" + Unescape(s[6..])
    else [s[0]] + Unescape(s[1..])
  }

  /** Reading starts with the first of the five references the text starts with. */
  lemma UnescapeAmp(t: string)
    ensures Unescape("&amp;" + t) == "&" + Unescape(t)
  {
    var s := "&amp;" + t;
    assert s[..5] == "&amp;" && s[5..] == t;
  }

  lemma UnescapeLt(t: string)
    ensures Unescape("&lt;" + t) == "<" + Unescape(t)
  {
    var s := "&lt;" + t;
    assert s[..4] == "&lt;" && s[4..] == t;
    assert !StartsWith(s, "&amp;") by { assert s[1] == 'l'; }
  }

  lemma UnescapeGt(t: string)
    ensures Unescape("&gt;" + t) == ">" + Unescape(t)
  {
    var s := "&gt;" + t;
    assert s[..4] == "&gt;" && s[4..] == t;
    assert !StartsWith(s, "&amp;") && !StartsWith(s, "&lt;") by { assert s[1] == 'g'; }
  }

  lemma UnescapeQuot(t: string)
    ensures Unescape("&quot;" + t) == "\"" + Unescape(t)
  {
    var s := "&quot;" + t;
    assert s[..6] == "&quot;" && s[6..] == t;
    assert !StartsWith(s, "&amp;") && !StartsWith(s, "&lt;") && !StartsWith(s, "&gt;") by { assert s[1] == 'q'; }
  }

  lemma UnescapeApos(t: string)
    ensures Unescape("&#x27;" + t) == "'" + Unescape(t)
  {
    var s := "&#x27;" + t;
    assert s[..6] == "&#x27;" && s[6..] == t;
    assert !StartsWith(s, "&amp;") && !StartsWith(s, "&lt;") && !StartsWith(s, "&gt;") && !StartsWith(s, "&quot;") by { assert s[1] == '#'; }
  }

  lemma UnescapeOther(c: char, t: string)
    requires c != '&'
    ensures Unescape([c] + t) == [c] + Unescape(t)
  {
    var s := [c] + t;
    assert s[0] == c && s[1..] == t;
    NotStartingWith(s, "&amp;");
    NotStartingWith(s, "&lt;");
    NotStartingWith(s, "&gt;");
    NotStartingWith(s, "&quot;");
    NotStartingWith(s, "&#x27;");
  }

  lemma NotStartingWith(s: string, r: string)
    requires s != [] && r != [] && s[0] != r[0]
    ensures !StartsWith(s, r)
  {
    if |r| <= |s| {
      assert s[..|r|][0] != r[0];
    }
  }

  /** The reference written for one character is read back as that character. */
  lemma UnescapeChar(c: char, t: string)
    ensures Unescape(EscapeChar(c) + t) == [c] + Unescape(t)
  {
    if c == '&' {
      UnescapeAmp(t);
    } else if c == '<' {
      UnescapeLt(t);
    } else if c == '>' {
      UnescapeGt(t);
    } else if c == '"' {
      UnescapeQuot(t);
    } else if c == '\'' {
      UnescapeApos(t);
    } else {
      UnescapeOther(c, t);
    }
  }

  /** Unescaping undoes escaping: no text is lost or altered by `html.escape`. */
  lemma {:induction false} UnescapeEscape(s: string)
    ensures Unescape(Escape(s)) == s
    decreases |s|
  {
    if s != [] {
      UnescapeEscape(s[1..]);
      UnescapeChar(s[0], Escape(s[1..]));
      assert s == [s[0]] + s[1..];
    }
  }

  /** A text without the five special characters is its own escape. */
  lemma {:induction false} EscapePlain(s: string)
    requires forall i :: 0 <= i < |s| ==> s[i] != '&' && s[i] != '<' && s[i] != '>' && s[i] != '"' && s[i] != '\''
    ensures Escape(s) == s
    decreases |s|
  {
    if s != [] {
      EscapePlain(s[1..]);
      assert s == [s[0]] + s[1..];
    }
  }

  /** Escaping distributes over concatenation. */
  lemma {:induction false} EscapeConcat(a: string, b: string)
    ensures Escape(a + b) == Escape(a) + Escape(b)
    decreases |a|
  {
    if a == [] {
      assert a + b == b;
    } else {
      assert (a + b)[1..] == a[1..] + b;
      EscapeConcat(a[1..], b);
    }
  }
}
