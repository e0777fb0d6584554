/** The base64 encoding of section 4 of RFC 4648 (standard alphabet, `=` padding), which
    `base64.b64encode` produces, and a decoder for the encoder's output. */
module Base64 {

  import opened Wrappers

  type Byte = x: int | 0 <= x < 256

  type Sextet = x: int | 0 <= x < 64

  /** The character for a 6-bit value: `A`-`Z`, `a`-`z`, `0`-`9`, `+`, `/` (Table 1 of RFC 4648). */
  function CharOf(v: Sextet): char {
    if v < 26 then ('A' as int + v) as char
    else if v < 52 then ('a' as int + (v - 26)) as char
    else if v < 62 then ('0' as int + (v - 52)) as char
    else if v == 62 then '+'
    else '/'
  }

  /** The 6-bit value a character of the alphabet stands for. */
  function ValueOf(c: char): Option<Sextet> {
    if 'A' <= c <= 'Z' then Some(c as int - 'A' as int)
    else if 'a' <= c <= 'z' then Some(c as int - 'a' as int + 26)
    else if '0' <= c <= '9' then Some(c as int - '0' as int + 52)
    else if c == '+' then Some(62)
    else if c == '/' then Some(63)
    else None
  }

  predicate InAlphabet(c: char) {
    ValueOf(c).Some? || c == '='
  }

  /** Each group of three bytes becomes four characters; a final group of one or two bytes is
      padded with `=` to four characters (section 4 of RFC 4648). */
  function Encode(b: seq<Byte>): (r: string)
    ensures |r| == 4 * ((|b| + 2) / 3)
    decreases |b|
  {
    if |b| == 0 then []
    else if |b| == 1 then EncodeOne(b[0])
    else if |b| == 2 then EncodeTwo(b[0], b[1])
    else EncodeGroup(b[0], b[1], b[2]) + Encode(b[3..])
  }

  function EncodeOne(b0: Byte): (r: string)
    ensures |r| == 4
  {
    [CharOf(b0 / 4), CharOf((b0 % 4) * 16), '=', '=']
  }

  function EncodeTwo(b0: Byte, b1: Byte): (r: string)
    ensures |r| == 4
  {
    [CharOf(b0 / 4), CharOf((b0 % 4) * 16 + b1 / 16), CharOf((b1 % 16) * 4), '=']
  }

  function EncodeGroup(b0: Byte, b1: Byte, b2: Byte): (r: string)
    ensures |r| == 4
  {
    [CharOf(b0 / 4), CharOf((b0 % 4) * 16 + b1 / 16), CharOf((b1 % 16) * 4 + b2 / 64), CharOf(b2 % 64)]
  }

  /** The three bytes whose bits four 6-bit values carry, most significant first. */
  function DecodeGroup(v0: Sextet, v1: Sextet, v2: Sextet, v3: Sextet): (r: seq<Byte>)
    ensures |r| == 3
  {
    var x0, x1, x2, x3 := v0 as int, v1 as int, v2 as int, v3 as int;
    [x0 * 4 + x1 / 16, (x1 % 16) * 16 + x2 / 4, (x2 % 4) * 64 + x3]
  }

  /** The bytes of one group of four characters, if all four belong to the alphabet. */
  function DecodeChars(c0: char, c1: char, c2: char, c3: char): Option<seq<Byte>> {
    if ValueOf(c0).Some? && ValueOf(c1).Some? && ValueOf(c2).Some? && ValueOf(c3).Some? then
      Some(DecodeGroup(ValueOf(c0).value, ValueOf(c1).value, ValueOf(c2).value, ValueOf(c3).value))
    else None
  }

  /** The bytes of a final group ending in `=`: one byte for `xx==`, two for `xxx=`. */
  function DecodePadded(c0: char, c1: char, c2: char): Option<seq<Byte>> {
    if c2 == '=' then
      match DecodeChars(c0, c1, 'A', 'A')
      case Some(g) => Some(g[..1])
      case None => None
    else
      match DecodeChars(c0, c1, c2, 'A')
      case Some(g) => Some(g[..2])
      case None => None
  }

  /** Decodes a padded base64 string; `None` for anything that is not a sequence of complete
      four-character groups of the alphabet with padding only at the end. The bits a padded
      group leaves over are ignored. */
  function Decode(s: string): Option<seq<Byte>>
    decreases |s|
  {
    if s == [] then Some([])
    else if |s| < 4 then None
    else if |s| == 4 && s[3] == '=' then DecodePadded(s[0], s[1], s[2])
    else
      match (DecodeChars(s[0], s[1], s[2], s[3]), Decode(s[4..]))
      case (Some(group), Some(rest)) => Some(group + rest)
      case _ => None
  }

  lemma ValueOfCharOf(v: Sextet)
    ensures ValueOf(CharOf(v)) == Some(v)
  {
  }

  /** Four characters of the alphabet decode to the bytes their values carry. */
  lemma DecodeCharsOf(v0: Sextet, v1: Sextet, v2: Sextet, v3: Sextet)
    ensures DecodeChars(CharOf(v0), CharOf(v1), CharOf(v2), CharOf(v3)) == Some(DecodeGroup(v0, v1, v2, v3))
  {
    ValueOfCharOf(v0);
    ValueOfCharOf(v1);
    ValueOfCharOf(v2);
    ValueOfCharOf(v3);
  }

  /** The bit arithmetic of one full group is undone by the decoder's. */
  lemma GroupArithmetic(b0: Byte, b1: Byte, b2: Byte)
    ensures DecodeGroup(b0 / 4, (b0 % 4) * 16 + b1 / 16, (b1 % 16) * 4 + b2 / 64, b2 % 64) == [b0, b1, b2]
  {
    var v1 := (b0 % 4) * 16 + b1 / 16;
    assert v1 / 16 == b0 % 4 && v1 % 16 == b1 / 16;
    var v2 := (b1 % 16) * 4 + b2 / 64;
    assert v2 / 4 == b1 % 16 && v2 % 4 == b2 / 64;
  }

  lemma OneArithmetic(b0: Byte)
    ensures DecodeGroup(b0 / 4, (b0 % 4) * 16, 0, 0)[..1] == [b0]
  {
    var v1 := (b0 % 4) * 16;
    assert v1 / 16 == b0 % 4;
  }

  lemma TwoArithmetic(b0: Byte, b1: Byte)
    ensures DecodeGroup(b0 / 4, (b0 % 4) * 16 + b1 / 16, (b1 % 16) * 4, 0)[..2] == [b0, b1]
  {
    var v1 := (b0 % 4) * 16 + b1 / 16;
    assert v1 / 16 == b0 % 4 && v1 % 16 == b1 / 16;
    var v2 := (b1 % 16) * 4;
    assert v2 / 4 == b1 % 16;
  }

  lemma CharOfNotPad(v: Sextet)
    ensures CharOf(v) != '='
  {
  }

  /** A final group of one byte is decoded back. */
  lemma {:induction false} DecodeOne(b: seq<Byte>)
    requires |b| == 1
    ensures Decode(Encode(b)) == Some(b)
  {
    var v0, v1 := b[0] / 4, (b[0] % 4) * 16;
    DecodeCharsOf(v0, v1, 0, 0);
    OneArithmetic(b[0]);
    assert CharOf(0) == 'A';
    var s := Encode(b);
    assert s == [CharOf(v0), CharOf(v1), '=', '='];
    assert Decode(s) == DecodePadded(CharOf(v0), CharOf(v1), '=');
    assert DecodeChars(CharOf(v0), CharOf(v1), 'A', 'A') == Some(DecodeGroup(v0, v1, 0, 0));
    assert b == [b[0]];
  }

  /** A final group of two bytes is decoded back. */
  lemma {:induction false} DecodeTwo(b: seq<Byte>)
    requires |b| == 2
    ensures Decode(Encode(b)) == Some(b)
  {
    var v0, v1, v2 := b[0] / 4, (b[0] % 4) * 16 + b[1] / 16, (b[1] % 16) * 4;
    DecodeCharsOf(v0, v1, v2, 0);
    TwoArithmetic(b[0], b[1]);
    CharOfNotPad(v2);
    assert CharOf(0) == 'A';
    var s := Encode(b);
    assert s == [CharOf(v0), CharOf(v1), CharOf(v2), '='];
    assert Decode(s) == DecodePadded(CharOf(v0), CharOf(v1), CharOf(v2));
    assert DecodeChars(CharOf(v0), CharOf(v1), CharOf(v2), 'A') == Some(DecodeGroup(v0, v1, v2, 0));
    assert b == [b[0], b[1]];
  }

  /** A full group in front of a decodable string is decoded in front of its bytes. */
  lemma {:induction false} DecodeCons(g: string, t: string, x: seq<Byte>, y: seq<Byte>)
    requires |g| == 4 && g[3] != '='
    requires DecodeChars(g[0], g[1], g[2], g[3]) == Some(x)
    requires Decode(t) == Some(y)
    ensures Decode(g + t) == Some(x + y)
  {
    var s := g + t;
    assert s[4..] == t;
    assert s[..4] == g;
  }

  /** The four characters of a full group decode to its three bytes. */
  lemma EncodeGroupDecodes(b0: Byte, b1: Byte, b2: Byte)
    ensures var g := EncodeGroup(b0, b1, b2);
            g[3] != '=' && DecodeChars(g[0], g[1], g[2], g[3]) == Some([b0, b1, b2])
  {
    var v0, v1, v2, v3 := b0 / 4, (b0 % 4) * 16 + b1 / 16, (b1 % 16) * 4 + b2 / 64, b2 % 64;
    GroupArithmetic(b0, b1, b2);
    DecodeCharsOf(v0, v1, v2, v3);
    CharOfNotPad(v3);
  }

  /** A full group followed by correctly decoded groups is decoded back. */
  lemma {:induction false} DecodeGroupStep(b: seq<Byte>)
    requires |b| >= 3
    requires Decode(Encode(b[3..])) == Some(b[3..])
    ensures Decode(Encode(b)) == Some(b)
  {
    var g := EncodeGroup(b[0], b[1], b[2]);
    EncodeGroupDecodes(b[0], b[1], b[2]);
    assert Encode(b) == g + Encode(b[3..]);
    DecodeCons(g, Encode(b[3..]), [b[0], b[1], b[2]], b[3..]);
    assert b[..3] == [b[0], b[1], b[2]];
    assert b == b[..3] + b[3..];
  }

  /** Decoding undoes encoding. */
  lemma {:induction false} DecodeEncode(b: seq<Byte>)
    ensures Decode(Encode(b)) == Some(b)
    decreases |b|
  {
    if |b| == 0 {
    } else if |b| == 1 {
      DecodeOne(b);
    } else if |b| == 2 {
      DecodeTwo(b);
    } else {
      DecodeEncode(b[3..]);
      DecodeGroupStep(b);
    }
  }
}
