/** `extract_email_content` of the two text converters (their sources are identical): the
    first HTML part wins and is returned at once with the flag set; otherwise the first plain
    part, escaped inside `<pre>`; attachments are skipped whatever their type. */
module TextBody {

  import opened Wrappers
  import opened Text
  import opened Mime
  import opened Redaction
  import opened HtmlEscape

  /** What the caller supplies: the UTF-8 decoder and the redaction rules. */
  datatype Reader = Reader(decode: Utf8Decoder, red: Redactor)

  /** The pair the function returns: the body and whether it came from an HTML part. */
  datatype Content = Content(body: string, isHtml: bool)

  const CouldNotDecode := "<p>Could not decode message content</p>"

  /** An HTML part the loop takes: not marked as an attachment, and its payload decodes. */
  predicate HtmlPart(p: Part) {
    !MarkedAttachment(p) && p.contentType == "text/html" && p.payload.Some?
  }

  /** A plain part the loop may take. */
  predicate PlainPart(p: Part) {
    !MarkedAttachment(p) && p.contentType == "text/plain" && p.payload.Some?
  }

  /** The first part of `parts` that satisfies `P`, if there is one. */
  function FirstPart(parts: seq<Part>, P: Part -> bool): (r: Option<Part>)
    ensures r.Some? ==> P(r.value) && r.value in parts
    ensures r.None? ==> forall j :: 0 <= j < |parts| ==> !P(parts[j])
    decreases |parts|
  {
    if parts == [] then None
    else if P(parts[0]) then Some(parts[0])
    else
      var r := FirstPart(parts[1..], P);
      assert forall j :: 1 <= j < |parts| ==> parts[j] == parts[1..][j - 1];
      r
  }

  /** The redacted text of a part that decodes. */
  function Redacted(rd: Reader, p: Part): string
    requires p.payload.Some?
  {
    Anonymize(rd.red, rd.decode(p.payload.value))
  }

  /** Plain text shown as HTML: escaped, inside `<pre>`. */
  function Pre(text: string): (r: string)
    ensures r != []
  {
    "<pre>" + Escape(text) + "</pre>"
  }

  /** The body of a multipart message, stated without the loop: the first HTML part, else
      the first plain part, else nothing. */
  function MultipartContent(rd: Reader, parts: seq<Part>): Content {
    match FirstPart(parts, HtmlPart)
    case Some(h) => Content(Redacted(rd, h), true)
    case None =>
      match FirstPart(parts, PlainPart)
      case Some(p) => Content(Pre(Redacted(rd, p)), false)
      case None => Content("", false)
  }

  /** The body of a message that is not multipart: shown as it is when HTML and inside
      `<pre>` otherwise, the flag never set; a placeholder when the payload does not decode. */
  function SingleContent(rd: Reader, p: Part): Content {
    match p.payload
    case None => Content(CouldNotDecode, false)
    case Some(b) =>
      var text := Anonymize(rd.red, rd.decode(b));
      Content(if p.contentType == "text/html" then text else Pre(text), false)
  }

  function ExtractContent(rd: Reader, m: Message): Content {
    if m.multipart then MultipartContent(rd, Walk(m)) else SingleContent(rd, m.root)
  }

  /** The first part satisfying `P` in `a + b` is that of `a`, or that of `b` when `a` has
      none. */
  lemma {:induction false} FirstPartConcat(a: seq<Part>, b: seq<Part>, P: Part -> bool)
    ensures FirstPart(a + b, P) == if FirstPart(a, P).Some? then FirstPart(a, P) else FirstPart(b, P)
    decreases |a|
  {
    if a == [] {
      assert a + b == b;
    } else {
      assert (a + b)[0] == a[0];
      assert (a + b)[1..] == a[1..] + b;
      FirstPartConcat(a[1..], b, P);
    }
  }

  lemma FirstPartSingle(p: Part, P: Part -> bool)
    ensures FirstPart([p], P) == if P(p) then Some(p) else None
  {
  }

  /** `FirstPart` finds the part at the first position satisfying `P`. */
  lemma {:induction false} FirstPartIs(parts: seq<Part>, i: nat, P: Part -> bool)
    requires i < |parts| && P(parts[i])
    requires forall j :: 0 <= j < i ==> !P(parts[j])
    ensures FirstPart(parts, P) == Some(parts[i])
    decreases i
  {
    if i > 0 {
      assert parts[1..][i - 1] == parts[i];
      assert forall j :: 0 <= j < i - 1 ==> parts[1..][j] == parts[j + 1];
      FirstPartIs(parts[1..], i - 1, P);
    }
  }

  /** One more part read: the first part satisfying `P` in the longer prefix. */
  lemma FirstPartStep(parts: seq<Part>, i: nat, P: Part -> bool)
    requires i < |parts|
    ensures FirstPart(parts[..i + 1], P) ==
              if FirstPart(parts[..i], P).Some? then FirstPart(parts[..i], P)
              else if P(parts[i]) then Some(parts[i]) else None
  {
    assert parts[..i + 1] == parts[..i] + [parts[i]];
    FirstPartConcat(parts[..i], [parts[i]], P);
    FirstPartSingle(parts[i], P);
  }

  /** The first part satisfying `P` found at `i` is the first of the whole sequence. */
  lemma FirstPartFound(parts: seq<Part>, i: nat, P: Part -> bool)
    requires i < |parts| && FirstPart(parts[..i], P).None? && P(parts[i])
    ensures FirstPart(parts, P) == Some(parts[i])
  {
    FirstPartStep(parts, i, P);
    assert parts == parts[..i + 1] + parts[i + 1..];
    FirstPartConcat(parts[..i + 1], parts[i + 1..], P);
  }

  /** The loop over `msg.walk()` of a multipart message: it returns at the first HTML part it
      can decode; the plain fallback is kept only while the body is still empty. */
  method CollectContent(rd: Reader, parts: seq<Part>) returns (body: string, isHtml: bool)
    ensures Content(body, isHtml) == MultipartContent(rd, parts)
  {
    body := "";
    var i := 0;
    while i < |parts|
      invariant 0 <= i <= |parts|
      invariant FirstPart(parts[..i], HtmlPart).None?
      invariant body == match FirstPart(parts[..i], PlainPart) case Some(p) => Pre(Redacted(rd, p)) case None => ""
    {
      var part := parts[i];
      FirstPartStep(parts, i, HtmlPart);
      FirstPartStep(parts, i, PlainPart);
      if MarkedAttachment(part) {
        i := i + 1;
        continue;
      }
      if part.contentType == "text/html" {
        match part.payload
        case Some(b) =>
          body := Anonymize(rd.red, rd.decode(b));
          FirstPartFound(parts, i, HtmlPart);
          return body, true;
        case None =>
      } else if part.contentType == "text/plain" && body == "" {
        match part.payload
        case Some(b) =>
          var textContent := Anonymize(rd.red, rd.decode(b));
          body := "<pre>" + Escape(textContent) + "</pre>";
        case None =>
      }
      i := i + 1;
    }
    assert parts[..i] == parts;
    return body, false;
  }

  /** `extract_email_content(msg)`. */
  method ExtractEmailContent(rd: Reader, m: Message) returns (body: string, isHtml: bool)
    ensures Content(body, isHtml) == ExtractContent(rd, m)
    ensures isHtml <==> m.multipart && exists i :: 0 <= i < |Walk(m)| && HtmlPart(Walk(m)[i])
  {
    HtmlFlag(rd, m);
    if m.multipart {
      body, isHtml := CollectContent(rd, Walk(m));
      return;
    }
    match m.root.payload
    case None =>
      return CouldNotDecode, false;
    case Some(b) =>
      var content := Anonymize(rd.red, rd.decode(b));
      if m.root.contentType == "text/html" {
        body := content;
      } else {
        body := "<pre>" + Escape(content) + "</pre>";
      }
      return body, false;
  }

  /** The flag is set exactly for a multipart message with an HTML part the loop can take. */
  lemma HtmlFlag(rd: Reader, m: Message)
    ensures ExtractContent(rd, m).isHtml <==> m.multipart && exists i :: 0 <= i < |Walk(m)| && HtmlPart(Walk(m)[i])
  {
  }

  /** The first HTML part wins, whatever follows it: the loop returns as soon as it reads it,
      even when its redacted text is empty. */
  lemma FirstHtmlWins(rd: Reader, a: seq<Part>, h: Part, b: seq<Part>)
    requires forall j :: 0 <= j < |a| ==> !HtmlPart(a[j])
    requires HtmlPart(h)
    ensures MultipartContent(rd, a + [h] + b) == Content(Redacted(rd, h), true)
  {
    FirstPartConcat(a + [h], b, HtmlPart);
    FirstPartConcat(a, [h], HtmlPart);
  }

  /** A part marked as an attachment changes nothing, wherever it sits and whatever its
      type. */
  lemma AttachmentIgnored(rd: Reader, a: seq<Part>, p: Part, b: seq<Part>)
    requires MarkedAttachment(p)
    ensures MultipartContent(rd, a + [p] + b) == MultipartContent(rd, a + b)
  {
    FirstPartConcat(a + [p], b, HtmlPart);
    FirstPartConcat(a, [p], HtmlPart);
    FirstPartConcat(a, b, HtmlPart);
    FirstPartConcat(a + [p], b, PlainPart);
    FirstPartConcat(a, [p], PlainPart);
    FirstPartConcat(a, b, PlainPart);
  }

  /** A plain body reads back, through `html.unescape` of what sits between the `<pre>`
      tags, as the redacted text of the first plain part. */
  lemma PlainBodyReadsBack(rd: Reader, parts: seq<Part>)
    requires FirstPart(parts, HtmlPart).None? && FirstPart(parts, PlainPart).Some?
    ensures var body := MultipartContent(rd, parts).body;
            && StartsWith(body, "<pre>") && EndsWith(body, "</pre>")
            && Unescape(body[5..|body| - 6]) == Redacted(rd, FirstPart(parts, PlainPart).value)
  {
    var text := Redacted(rd, FirstPart(parts, PlainPart).value);
    var body := Pre(text);
    assert body[5..|body| - 6] == Escape(text);
    UnescapeEscape(text);
  }

  /** An HTML body is redacted text: stripped, and a single space is its only whitespace. */
  lemma HtmlBodyRedacted(rd: Reader, m: Message)
    requires ExtractContent(rd, m).isHtml
    ensures Stripped(ExtractContent(rd, m).body)
    ensures OnlyBlanks(ExtractContent(rd, m).body, IsSpace)
  {
  }
}
