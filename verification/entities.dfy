/** The decoding of character references the index builder applies to the values it reads
    back from a page: a chain of `str.replace` calls, one per reference, in a fixed order.
    Because `&amp;` is replaced first, the `&` it produces can start another reference that
    a later call in the chain then replaces: `&amp;lt;` (the page's spelling of the text
    `&lt;`) comes back as `<`. A single left-to-right pass, which reads each reference of
    the page exactly once, is what undoes the page's escaping. */
module Entities {

  import opened Wrappers
  import opened Text
  import opened Scan

  /** A character reference and the character it stands for. */
  datatype Entity = Entity(ref: string, ch: char)

  /** The chain for the subject and the sender, in the order the calls are made. */
  const FullTable: seq<Entity> := [Entity("&amp;", '&'), Entity("&lt;", '<'), Entity("&gt;", '>'), Entity("&quot;", '"'), Entity("&#39;", '\'')]

  /** The shorter chain for the date. */
  const ShortTable: seq<Entity> := [Entity("&amp;", '&'), Entity("&lt;", '<'), Entity("&gt;", '>')]

  /** The chain of replacements as written: each reference replaced everywhere, in the order
      of the table, each call working on the previous call's output. */
  function DecodeAsWritten(table: seq<Entity>, s: string): string
    decreases |table|
  {
    if table == [] then s
    else DecodeAsWritten(table[1..], Replace(s, table[0].ref, [table[0].ch]))
  }

  /** The first entity of the table whose reference starts `s`. */
  function RefAt(table: seq<Entity>, s: string): (r: Option<Entity>)
    ensures r.Some? ==> r.value in table && r.value.ref != [] && StartsWith(s, r.value.ref)
    ensures r.None? ==> forall i :: 0 <= i < |table| && table[i].ref != [] ==> !StartsWith(s, table[i].ref)
    decreases |table|
  {
    if table == [] then None
    else if table[0].ref != [] && StartsWith(s, table[0].ref) then Some(table[0])
    else
      var r := RefAt(table[1..], s);
      assert forall i :: 1 <= i < |table| ==> table[i] == table[1..][i - 1];
      r
  }

  /** The corrected decoding: one pass, left to right, each reference read once. */
  function Decode(table: seq<Entity>, s: string): (r: string)
    ensures |r| <= |s|
    decreases |s|
  {
    if s == [] then []
    else
      match RefAt(table, s)
      case Some(e) => [e.ch] + Decode(table, s[|e.ref|..])
      case None => [s[0]] + Decode(table, s[1..])
  }

  /** The reference written for `c`: that of the first entity standing for `c`. */
  function EncodeChar(table: seq<Entity>, c: char): string
    decreases |table|
  {
    if table == [] then [c]
    else if table[0].ch == c then table[0].ref
    else EncodeChar(table[1..], c)
  }

  /** Escaping with the table: every character that has a reference is written as it. */
  function Encode(table: seq<Entity>, s: string): string
    decreases |s|
  {
    if s == [] then [] else EncodeChar(table, s[0]) + Encode(table, s[1..])
  }

  /** A table a single pass can read back: every reference starts with `&` followed by a
      character no other reference has there, and `&` itself has a reference. */
  predicate WellFormed(table: seq<Entity>) {
    && (forall i :: 0 <= i < |table| ==> |table[i].ref| >= 2 && table[i].ref[0] == '&')
    && (forall i, j :: 0 <= i < j < |table| ==> table[i].ref[1] != table[j].ref[1])
    && (exists i :: 0 <= i < |table| && table[i].ch == '&')
  }

  lemma FullTableWellFormed()
    ensures WellFormed(FullTable)
  {
    assert FullTable[0].ch == '&';
  }

  lemma ShortTableWellFormed()
    ensures WellFormed(ShortTable)
  {
    assert ShortTable[0].ch == '&';
  }

  /** Where `c` has a reference, the entity written for it is in the table. */
  lemma {:induction false} EncodeCharEntity(table: seq<Entity>, c: char)
    ensures EncodeChar(table, c) == [c] || exists i :: 0 <= i < |table| && table[i].ch == c && EncodeChar(table, c) == table[i].ref
    ensures (forall i :: 0 <= i < |table| ==> table[i].ch != c) ==> EncodeChar(table, c) == [c]
    ensures (exists i :: 0 <= i < |table| && table[i].ch == c) ==> exists i :: 0 <= i < |table| && table[i].ch == c && EncodeChar(table, c) == table[i].ref
    decreases |table|
  {
    if table != [] && table[0].ch != c {
      EncodeCharEntity(table[1..], c);
      assert forall i :: 1 <= i < |table| ==> table[i] == table[1..][i - 1];
      if exists i :: 0 <= i < |table| && table[i].ch == c {
        var i :| 0 <= i < |table| && table[i].ch == c;
        assert table[1..][i - 1].ch == c;
      }
    }
  }

  /** A text whose `j`-th character differs from that of `r` does not start with `r`. */
  lemma NotPrefixAt(s: string, r: string, j: nat)
    requires j < |r| && j < |s| && s[j] != r[j]
    ensures !StartsWith(s, r)
  {
    if |r| <= |s| {
      assert s[..|r|][j] != r[j];
    }
  }

  /** In a well-formed table, the reference of entry `k` followed by anything is read as
      entry `k`. */
  lemma RefAtEntry(table: seq<Entity>, k: nat, t: string)
    requires WellFormed(table) && k < |table|
    ensures RefAt(table, table[k].ref + t) == Some(table[k])
  {
    var s := table[k].ref + t;
    assert s[..|table[k].ref|] == table[k].ref;
    assert s[1] == table[k].ref[1];
    forall i | 0 <= i < k
      ensures !(table[i].ref != [] && StartsWith(s, table[i].ref))
    {
      NotPrefixAt(s, table[i].ref, 1);
    }
    RefAtFirst(table, s, k);
  }

  /** `RefAt` finds an entry no later than any entry that matches. */
  lemma {:induction false} RefAtFirst(table: seq<Entity>, s: string, k: nat)
    requires k < |table| && table[k].ref != [] && StartsWith(s, table[k].ref)
    requires forall i :: 0 <= i < k ==> !(table[i].ref != [] && StartsWith(s, table[i].ref))
    ensures RefAt(table, s) == Some(table[k])
    decreases k
  {
    if k > 0 {
      assert forall i :: 0 <= i < k - 1 ==> table[1..][i] == table[i + 1];
      RefAtFirst(table[1..], s, k - 1);
    }
  }

  /** Reading one encoded character gives it back and resumes after its encoding. */
  lemma DecodeEncodedChar(table: seq<Entity>, c: char, t: string)
    requires WellFormed(table)
    ensures Decode(table, EncodeChar(table, c) + t) == [c] + Decode(table, t)
  {
    EncodeCharEntity(table, c);
    var e := EncodeChar(table, c);
    if exists i :: 0 <= i < |table| && table[i].ch == c {
      var i :| 0 <= i < |table| && table[i].ch == c && e == table[i].ref;
      RefAtEntry(table, i, t);
      assert (e + t)[|e|..] == t;
    } else {
      var a :| 0 <= a < |table| && table[a].ch == '&';
      assert c != '&';
      var s := [c] + t;
      assert s[1..] == t;
      forall i | 0 <= i < |table| && table[i].ref != []
        ensures !StartsWith(s, table[i].ref)
      {
        NotPrefixAt(s, table[i].ref, 0);
      }
    }
  }

  /** The single pass undoes the encoding: nothing is lost or altered. */
  lemma {:induction false} DecodeEncode(table: seq<Entity>, s: string)
    requires WellFormed(table)
    ensures Decode(table, Encode(table, s)) == s
    decreases |s|
  {
    if s != [] {
      DecodeEncode(table, s[1..]);
      DecodeEncodedChar(table, s[0], Encode(table, s[1..]));
      assert s == [s[0]] + s[1..];
    }
  }

  predicate NoAmpersand(s: string) {
    forall k :: 0 <= k < |s| ==> s[k] != '&'
  }

  /** A text without `&` holds no reference: the single pass leaves it as it is. */
  lemma {:induction false} DecodePlain(table: seq<Entity>, s: string)
    requires WellFormed(table) && NoAmpersand(s)
    ensures Decode(table, s) == s
    decreases |s|
  {
    if s != [] {
      forall i | 0 <= i < |table| && table[i].ref != []
        ensures !StartsWith(s, table[i].ref)
      {
        NotPrefixAt(s, table[i].ref, 0);
      }
      DecodePlain(table, s[1..]);
      assert s == [s[0]] + s[1..];
    }
  }

  /** Nor does any call of the chain change it. */
  lemma ReplacePlain(s: string, e: Entity)
    requires NoAmpersand(s) && |e.ref| >= 1 && e.ref[0] == '&'
    ensures Replace(s, e.ref, [e.ch]) == s
  {
    forall j | 0 <= j < |s|
      ensures !StartsWith(s[j..], e.ref)
    {
      NotPrefixAt(s[j..], e.ref, 0);
    }
    ReplaceAbsent(s, e.ref, [e.ch]);
  }

  /** As written, a chain over a text without `&` changes nothing. */
  lemma {:induction false} DecodeAsWrittenPlain(table: seq<Entity>, s: string)
    requires forall i :: 0 <= i < |table| ==> |table[i].ref| >= 1 && table[i].ref[0] == '&'
    requires NoAmpersand(s)
    ensures DecodeAsWritten(table, s) == s
    decreases |table|
  {
    if table != [] {
      ReplacePlain(s, table[0]);
      DecodeAsWrittenPlain(table[1..], s);
    }
  }

  /** A reference as the chain's tables write them: `&`, then characters that are neither `&`
      nor `;`, then `;`. */
  predicate RefShape(r: string) {
    && |r| >= 2 && r[0] == '&' && r[|r| - 1] == ';'
    && (forall k :: 0 < k < |r| ==> r[k] != '&')
    && (forall k :: 0 <= k < |r| - 1 ==> r[k] != ';')
  }

  /** A table the chain reads back text without `&` with: shaped references, no two entries
      with the same reference or the same character. */
  predicate ChainTable(table: seq<Entity>) {
    && (forall i :: 0 <= i < |table| ==> RefShape(table[i].ref))
    && (forall i, j :: 0 <= i < j < |table| ==> table[i].ref != table[j].ref && table[i].ch != table[j].ch)
  }

  lemma FullTableChain()
    ensures ChainTable(FullTable) && ChainTable(ShortTable)
  {
    ShapeOf("&amp;");
    ShapeOf("&lt;");
    ShapeOf("&gt;");
    ShapeOf("&quot;");
    ShapeOf("&#39;");
  }

  lemma ShapeOf(r: string)
    requires r in {"&amp;", "&lt;", "&gt;", "&quot;", "&#39;"}
    ensures RefShape(r)
  {
  }

  /** A shaped reference `r` found at the start of a shaped reference `q` followed by
      anything is `q` itself. */
  lemma ShapedPrefix(r: string, q: string, y: string)
    requires RefShape(r) && RefShape(q) && StartsWith(q + y, r)
    ensures r == q
  {
    var n := if |r| <= |q| then |r| else |q|;
    assert r[n - 1] == (q + y)[n - 1] == q[n - 1];
    assert |r| == |q|;
    assert r == q[..|r|];
  }

  /** The text written for a character other than `&` holds `&` only at the start of a
      reference. */
  lemma EncodeCharShape(table: seq<Entity>, c: char)
    requires ChainTable(table) && c != '&'
    ensures EncodeChar(table, c) == [c] || exists i :: 0 <= i < |table| && EncodeChar(table, c) == table[i].ref
  {
    EncodeCharEntity(table, c);
  }

  /** An occurrence of a shaped reference `r` that starts inside the text written for `c`
      ends inside it, and is that whole text. */
  lemma NoCrossing(table: seq<Entity>, c: char, y: string, r: string, j: nat)
    requires ChainTable(table) && c != '&' && RefShape(r)
    requires j < |EncodeChar(table, c)| && StartsWith((EncodeChar(table, c) + y)[j..], r)
    ensures j == 0 && EncodeChar(table, c) == r
  {
    var x := EncodeChar(table, c);
    EncodeCharShape(table, c);
    assert (x + y)[j..][0] == x[j];
    if x != [c] {
      var i :| 0 <= i < |table| && x == table[i].ref;
      assert j == 0;
      assert (x + y)[0..] == x + y;
      ShapedPrefix(r, x, y);
    }
  }

  /** A `replace` over two texts, when no occurrence starting in the first reaches into the
      second, is the two replaced one after the other. */
  lemma {:induction false} ReplaceConcat(x: string, y: string, r: string, v: string)
    requires r != []
    requires forall j :: 0 <= j < |x| && StartsWith((x + y)[j..], r) ==> j + |r| <= |x|
    ensures Replace(x + y, r, v) == Replace(x, r, v) + Replace(y, r, v)
    decreases |x|
  {
    if x == [] {
      assert x + y == y;
    } else {
      assert (x + y)[0..] == x + y;
      var n, h := ReplaceHeads(x, y, r, v);
      NoCrossingTail(x, y, r, n);
      ReplaceConcat(x[n..], y, r, v);
      assert (x + y)[n..] == x[n..] + y;
      JoinHeads(Replace(x + y, r, v), Replace(x, r, v), h, Replace(x[n..] + y, r, v), Replace(x[n..], r, v), Replace(y, r, v));
    }
  }

  /** The step of the induction, with the texts replaced by names. */
  lemma JoinHeads(whole: string, front: string, h: string, tail: string, frontTail: string, back: string)
    requires whole == h + tail && front == h + frontTail && tail == frontTail + back
    ensures whole == front + back
  {
  }

  /** `x + y` and `x` begin alike under `replace` when no occurrence starting at the front
      of `x` crosses its end: both give `h` and go on after the first `n` characters. */
  lemma ReplaceHeads(x: string, y: string, r: string, v: string) returns (n: nat, h: string)
    requires x != [] && r != []
    requires StartsWith(x + y, r) ==> |r| <= |x|
    ensures 0 < n <= |x|
    ensures Replace(x + y, r, v) == h + Replace((x + y)[n..], r, v)
    ensures Replace(x, r, v) == h + Replace(x[n..], r, v)
  {
    ReplaceStep(x + y, r, v);
    ReplaceStep(x, r, v);
    if StartsWith(x + y, r) {
      assert (x + y)[..|r|] == x[..|r|];
      n, h := |r|, v;
    } else {
      if |r| <= |x| {
        assert (x + y)[..|r|] == x[..|r|];
      }
      n, h := 1, [x[0]];
    }
  }

  /** An occurrence that does not cross the end of `x` does not cross the end of its tail. */
  lemma NoCrossingTail(x: string, y: string, r: string, n: nat)
    requires n <= |x|
    requires forall j :: 0 <= j < |x| && StartsWith((x + y)[j..], r) ==> j + |r| <= |x|
    ensures forall j :: 0 <= j < |x[n..]| && StartsWith((x[n..] + y)[j..], r) ==> j + |r| <= |x[n..]|
  {
    forall j | 0 <= j < |x[n..]| && StartsWith((x[n..] + y)[j..], r)
      ensures j + |r| <= |x[n..]|
    {
      assert (x[n..] + y)[j..] == (x + y)[j + n..];
    }
  }

  /** One call of the chain turns the encoding with a table into the encoding with the rest
      of the table. */
  lemma {:induction false} ChainStep(table: seq<Entity>, s: string)
    requires table != [] && ChainTable(table) && NoAmpersand(s)
    ensures Replace(Encode(table, s), table[0].ref, [table[0].ch]) == Encode(table[1..], s)
    decreases |s|
  {
    var r := table[0].ref;
    if s == [] {
      ReplaceAbsent([], r, [table[0].ch]);
    } else {
      var c := s[0];
      var x := EncodeChar(table, c);
      var y := Encode(table, s[1..]);
      forall j | 0 <= j < |x| && StartsWith((x + y)[j..], r)
        ensures j + |r| <= |x|
      {
        NoCrossing(table, c, y, r, j);
      }
      ReplaceConcat(x, y, r, [table[0].ch]);
      ChainStep(table, s[1..]);
      ReplacePiece(table, c);
    }
  }

  /** The call of the chain for the first entry on the text written for one character. */
  lemma ReplacePiece(table: seq<Entity>, c: char)
    requires table != [] && ChainTable(table) && c != '&'
    ensures Replace(EncodeChar(table, c), table[0].ref, [table[0].ch]) == EncodeChar(table[1..], c)
  {
    var r := table[0].ref;
    var x := EncodeChar(table, c);
    if table[0].ch == c {
      assert x == r;
      assert StartsWith(x, r);
      SubWhole(x, Literal(r), Constant([c]));
      EncodeCharAbsent(table[1..], c);
    } else {
      assert x == EncodeChar(table[1..], c);
      forall j | 0 <= j < |x|
        ensures !StartsWith(x[j..], r)
      {
        if StartsWith(x[j..], r) {
          assert (x + [])[j..] == x[j..];
          NoCrossing(table, c, [], r, j);
          EncodeCharShape(table[1..], c);
          assert false;
        }
      }
      ReplaceAbsent(x, r, [table[0].ch]);
    }
  }

  lemma {:induction false} EncodeCharAbsent(table: seq<Entity>, c: char)
    requires forall i :: 0 <= i < |table| ==> table[i].ch != c
    ensures EncodeChar(table, c) == [c]
    decreases |table|
  {
    if table != [] {
      EncodeCharAbsent(table[1..], c);
    }
  }

  lemma {:induction false} EncodeEmpty(s: string)
    ensures Encode([], s) == s
    decreases |s|
  {
    if s != [] {
      EncodeEmpty(s[1..]);
    }
  }

  /** As written, the chain reads back the encoding of any text without `&`: the chain's
      double decoding needs an `&` in the text itself. */
  lemma {:induction false} ChainEncode(table: seq<Entity>, s: string)
    requires ChainTable(table) && NoAmpersand(s)
    ensures DecodeAsWritten(table, Encode(table, s)) == s
    decreases |table|
  {
    if table == [] {
      EncodeEmpty(s);
    } else {
      ChainStep(table, s);
      assert ChainTable(table[1..]) by {
        assert forall i :: 0 <= i < |table[1..]| ==> table[1..][i] == table[i + 1];
      }
      ChainEncode(table[1..], s);
    }
  }

  /** On the escaped form of a text without `&`, the chain and the single pass agree. */
  lemma ChainAgrees(s: string)
    requires NoAmpersand(s)
    ensures DecodeAsWritten(FullTable, Encode(FullTable, s)) == Decode(FullTable, Encode(FullTable, s)) == s
  {
    FullTableChain();
    ChainEncode(FullTable, s);
    FullTableWellFormed();
    DecodeEncode(FullTable, s);
  }

  /** A reference at the start of a text, followed by text without `&`, is the only thing one
      call of the chain replaces. */
  lemma ReplaceLeading(s: string, e: Entity, rest: string)
    requires s == e.ref + rest && |e.ref| >= 1 && e.ref[0] == '&' && NoAmpersand(rest)
    ensures Replace(s, e.ref, [e.ch]) == [e.ch] + rest
  {
    assert s[..|e.ref|] == e.ref;
    SubAt(s, 0, Literal(e.ref), Constant([e.ch]));
    assert s[|e.ref|..] == rest && s[..0] == [];
    ReplacePlain(rest, e);
  }

  /** The text `&lt;` is written by the encoding as `&amp;lt;`. As written, the chain reads
      that back as `<`; the single pass reads it back as `&lt;`. */
  lemma DoubleDecoded(t: string, u: string)
    requires t == "&amp;lt;" && u == "&lt;"
    ensures Encode(FullTable, u) == t
    ensures Decode(FullTable, t) == u
    ensures DecodeAsWritten(FullTable, t) == "<"
  {
    EncodeLt(u);
    FullTableWellFormed();
    DecodeEncode(FullTable, u);
    ChainLt(t);
  }

  lemma EncodeLt(u: string)
    requires u == "&lt;"
    ensures Encode(FullTable, u) == "&amp;lt;"
  {
    assert u[1..] == "lt;" && u[1..][1..] == "t;" && u[1..][1..][1..] == ";";
    assert EncodeChar(FullTable, '&') == "&amp;";
    assert EncodeChar(FullTable, 'l') == "l";
    assert EncodeChar(FullTable, 't') == "t";
    assert EncodeChar(FullTable, ';') == ";";
  }

  lemma ChainLt(t: string)
    requires t == "&amp;lt;"
    ensures DecodeAsWritten(FullTable, t) == "<"
  {
    var amp := FullTable[0];
    var lt := FullTable[1];
    ReplaceLeading(t, amp, "lt;");
    assert [amp.ch] + "lt;" == "&lt;";
    ReplaceLeading("&lt;", lt, "");
    assert [lt.ch] + "" == "<";
    DecodeAsWrittenPlain(FullTable[2..], "<");
    assert FullTable[1..][1..] == FullTable[2..];
  }
}
