/** The replacement templates of Python's `re.sub`: a replacement given as a string is read
    for backslash escapes and group references before any match is replaced, and a malformed
    one raises `re.error`. Modelled for a pattern without groups, which is the only kind the
    converters give a string replacement that can contain a backslash. */
module Template {

  import opened Wrappers
  import opened Text

  /** One element of a parsed template: a literal character, or the whole match (`\g<0>`). */
  datatype Piece = Lit(c: char) | Whole

  predicate IsOctal(c: char) {
    '0' <= c <= '7'
  }

  predicate IsAsciiLetter(c: char) {
    'a' <= c <= 'z' || 'A' <= c <= 'Z'
  }

  function OctalDigit(c: char): (v: nat)
    requires IsOctal(c)
    ensures v < 8
  {
    c as int - '0' as int
  }

  /** The character a one-letter escape stands for: `\a \b \f \n \r \t \v \\`. */
  function SimpleEscape(c: char): Option<char> {
    if c == 'a' then Some('\U{7}')
    else if c == 'b' then Some('\U{8}')
    else if c == 'f' then Some('\U{C}')
    else if c == 'n' then Some('\n')
    else if c == 'r' then Some('\r')
    else if c == 't' then Some('\t')
    else if c == 'v' then Some('\U{B}')
    else if c == '\\' then Some('\\')
    else None
  }

  /** `s` is a non-empty run of ASCII zeros: the only group number a pattern without groups
      accepts in `\g<...>`. */
  predicate GroupZero(s: string) {
    s != [] && forall i :: 0 <= i < |s| ==> s[i] == '0'
  }

  function Prepend(ps: seq<Piece>, rest: Option<seq<Piece>>): (r: Option<seq<Piece>>)
    ensures r.Some? <==> rest.Some?
    ensures r.Some? ==> r.value == ps + rest.value
  {
    match rest
    case Some(x) => Some(ps + x)
    case None => None
  }

  /** Reads a template the way `re` does:
      `\\` and the escapes `\a \b \f \n \r \t \v` stand for one character;
      `\0` with up to two more octal digits is a character code;
      a backslash and a digit 1-9 are a group reference, which is an error since the pattern
      has no groups, unless three octal digits follow the backslash, which is a character
      code up to 0o377 and an error above it;
      `\g<0>` is the whole match and every other `\g` form an error;
      a backslash before another ASCII letter, or at the very end, is an error;
      a backslash before any other character stays, with the character. */
  function Parse(t: string): Option<seq<Piece>>
    decreases |t|
  {
    if t == [] then Some([])
    else if t[0] != '\\' then Prepend([Lit(t[0])], Parse(t[1..]))
    else if |t| == 1 then None
    else
      var c := t[1];
      if c == 'g' then
        if |t| > 2 && t[2] == '<' then
          match IndexOf(t, '>', 3)
          case Some(k) => if GroupZero(t[3..k]) then Prepend([Whole], Parse(t[k + 1..])) else None
          case None => None
        else None
      else if c == '0' then
        if |t| > 2 && IsOctal(t[2]) then
          if |t| > 3 && IsOctal(t[3]) then
            Prepend([Lit((OctalDigit(t[2]) * 8 + OctalDigit(t[3])) as char)], Parse(t[4..]))
          else Prepend([Lit(OctalDigit(t[2]) as char)], Parse(t[3..]))
        else Prepend([Lit('\0')], Parse(t[2..]))
      else if '1' <= c <= '9' then
        if |t| > 3 && IsOctal(c) && IsOctal(t[2]) && IsOctal(t[3]) then
          var v := OctalDigit(c) * 64 + OctalDigit(t[2]) * 8 + OctalDigit(t[3]);
          if v > 255 then None else Prepend([Lit(v as char)], Parse(t[4..]))
        else None
      else if SimpleEscape(c).Some? then Prepend([Lit(SimpleEscape(c).value)], Parse(t[2..]))
      else if IsAsciiLetter(c) then None
      else Prepend([Lit('\\'), Lit(c)], Parse(t[2..]))
  }

  /** The text a parsed template produces for one match. */
  function Expand(ps: seq<Piece>, whole: string): string
    decreases |ps|
  {
    if ps == [] then []
    else (match ps[0] case Lit(c) => [c] case Whole => whole) + Expand(ps[1..], whole)
  }

  /** The whole substitution step of `re.sub(pattern, template, ...)` for one match. */
  function Substitute(template: string, whole: string): Option<string> {
    match Parse(template)
    case Some(ps) => Some(Expand(ps, whole))
    case None => None
  }

  /** No backslash: nothing in the text is read as an escape. */
  predicate NoBackslash(t: string) {
    forall i :: 0 <= i < |t| ==> t[i] != '\\'
  }

  /** A template without a backslash is read as itself. */
  lemma {:induction false} ParseLiteral(t: string, whole: string)
    requires NoBackslash(t)
    ensures Parse(t).Some? && Expand(Parse(t).value, whole) == t
    decreases |t|
  {
    if t != [] {
      ParseLiteral(t[1..], whole);
      var rest := Parse(t[1..]).value;
      assert Parse(t).value == [Lit(t[0])] + rest;
      assert ([Lit(t[0])] + rest)[1..] == rest;
      assert t == [t[0]] + t[1..];
    }
  }

  /** A group reference `\5` in a template makes it an error, whatever follows. */
  lemma {:induction false} GroupReferenceFails(pre: string, post: string)
    requires NoBackslash(pre)
    requires post == [] || !IsDigit(post[0])
    ensures Parse(pre + "\\5" + post).None?
    decreases |pre|
  {
    var t := pre + "\\5" + post;
    if pre == [] {
      assert t == "\\5" + post;
      assert t[0] == '\\' && t[1] == '5';
      assert |t| > 3 ==> t[2] == post[0];
    } else {
      assert t[0] == pre[0];
      assert t[1..] == pre[1..] + "\\5" + post;
      GroupReferenceFails(pre[1..], post);
    }
  }
}
