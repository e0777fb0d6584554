/** `extract_email_content` of the converter that embeds images: the body of the message,
    preferring HTML (the last HTML part that decodes) over plain text (the first plain part
    that leaves something after redaction), with a placeholder when neither is there. */
module InlineBody {

  import opened Wrappers
  import opened Text
  import opened Mime
  import opened Redaction
  import opened HtmlEscape
  import Images
  import CidRewrite
  import Dimensions

  /** What the caller supplies: the UTF-8 decoder, the redaction rules and whether image
      dimensions are kept. */
  datatype Settings = Settings(decode: Utf8Decoder, red: Redactor, preserve: bool)

  /** The two bodies the loop over the parts keeps. */
  datatype Bodies = Bodies(html: string, plain: string)

  const NoContent := "<p>No readable content found</p>"
  const CouldNotDecode := "<p>Could not decode message content</p>"

  /** `"attachment" in disposition and not an image`: a part the loop skips. */
  predicate Skipped(p: Part) {
    MarkedAttachment(p) && !IsImage(p)
  }

  /** An HTML part the loop reads: not skipped, and its payload decodes. */
  predicate HtmlCandidate(p: Part) {
    !Skipped(p) && p.contentType == "text/html" && p.payload.Some?
  }

  /** A plain-text part the loop may read: not skipped, and its payload decodes. */
  predicate PlainPart(p: Part) {
    !Skipped(p) && p.contentType == "text/plain" && p.payload.Some?
  }

  /** The redacted text of a plain part. */
  function PlainText(s: Settings, p: Part): string
    requires p.payload.Some?
  {
    Anonymize(s.red, s.decode(p.payload.value))
  }

  /** A plain part whose redacted text is not empty: the first such part is the fallback. */
  predicate PlainCandidate(s: Settings, p: Part) {
    PlainPart(p) && PlainText(s, p) != []
  }

  /** The HTML body the code makes of a decoded HTML text: CID rewriting, dimension cleaning
      and redaction. */
  function ReadHtml(s: Settings, images: map<string, string>): string -> string {
    raw => Anonymize(s.red, CidRewrite.ReplaceCidReferences(raw, images, s.preserve))
  }

  /** The same as written: when the CID step raises, the `except: continue` leaves
      `html_body` holding the decoded text, which has not been redacted. */
  function ReadHtmlAsWritten(s: Settings, images: map<string, string>): string -> string {
    raw => match CidRewrite.ReplaceCidReferencesAsWritten(raw, images, s.preserve)
           case Some(x) => Anonymize(s.red, x)
           case None => raw
  }

  /** One turn of the loop, with `read` making the HTML body of a decoded HTML part. A part
      whose payload does not decode raises inside the `try` and changes nothing. */
  function Step(s: Settings, read: string -> string, b: Bodies, p: Part): Bodies {
    if Skipped(p) then b
    else if p.contentType == "text/html" then
      match TextOf(p, s.decode)
      case Some(raw) => b.(html := read(raw))
      case None => b
    else if p.contentType == "text/plain" && b.plain == [] then
      match TextOf(p, s.decode)
      case Some(raw) => b.(plain := Anonymize(s.red, raw))
      case None => b
    else b
  }

  /** The loop over the parts in walk order. */
  function Collect(s: Settings, read: string -> string, parts: seq<Part>): Bodies
    decreases |parts|
  {
    if parts == [] then Bodies([], [])
    else Step(s, read, Collect(s, read, parts[..|parts| - 1]), parts[|parts| - 1])
  }

  /** The position of the last HTML part the loop reads, if any. */
  function LastHtml(parts: seq<Part>): (r: Option<nat>)
    ensures r.Some? ==> r.value < |parts| && HtmlCandidate(parts[r.value])
    ensures r.Some? ==> forall j :: r.value < j < |parts| ==> !HtmlCandidate(parts[j])
    ensures r.None? ==> forall j :: 0 <= j < |parts| ==> !HtmlCandidate(parts[j])
    decreases |parts|
  {
    if parts == [] then None
    else if HtmlCandidate(parts[|parts| - 1]) then Some(|parts| - 1)
    else
      var r := LastHtml(parts[..|parts| - 1]);
      assert forall j :: 0 <= j < |parts| - 1 ==> parts[..|parts| - 1][j] == parts[j];
      r
  }

  /** The position of the first plain part with something left after redaction, if any. */
  function FirstPlain(s: Settings, parts: seq<Part>): (r: Option<nat>)
    ensures r.Some? ==> r.value < |parts| && PlainCandidate(s, parts[r.value])
    ensures r.Some? ==> forall j :: 0 <= j < r.value ==> !PlainCandidate(s, parts[j])
    ensures r.None? ==> forall j :: 0 <= j < |parts| ==> !PlainCandidate(s, parts[j])
  {
    FirstWhere(parts, p => PlainCandidate(s, p))
  }

  /** What one turn does to each body: a decodable HTML part replaces the HTML body; a
      decodable plain part fills the plain body while it is empty; nothing else changes. */
  lemma StepBodies(s: Settings, read: string -> string, b: Bodies, p: Part)
    ensures Step(s, read, b, p).html == if HtmlCandidate(p) then read(s.decode(p.payload.value)) else b.html
    ensures Step(s, read, b, p).plain == if b.plain == [] && PlainPart(p) then PlainText(s, p) else b.plain
  {
  }

  /** The HTML body the loop ends with: that of the last HTML part that decodes, even when
      it comes out empty; empty when there is none. */
  lemma {:induction false} CollectHtml(s: Settings, read: string -> string, parts: seq<Part>)
    ensures Collect(s, read, parts).html ==
              match LastHtml(parts) case Some(i) => read(s.decode(parts[i].payload.value)) case None => []
    decreases |parts|
  {
    if parts != [] {
      var prefix := parts[..|parts| - 1];
      CollectHtml(s, read, prefix);
      StepBodies(s, read, Collect(s, read, prefix), parts[|parts| - 1]);
      assert forall j :: 0 <= j < |prefix| ==> prefix[j] == parts[j];
    }
  }

  /** The plain body the loop ends with: the redacted text of the first plain part that
      leaves something; empty when there is none. */
  lemma {:induction false} CollectPlain(s: Settings, read: string -> string, parts: seq<Part>)
    ensures Collect(s, read, parts).plain ==
              match FirstPlain(s, parts) case Some(i) => PlainText(s, parts[i]) case None => []
    decreases |parts|
  {
    if parts != [] {
      var prefix := parts[..|parts| - 1];
      CollectPlain(s, read, prefix);
      StepBodies(s, read, Collect(s, read, prefix), parts[|parts| - 1]);
      assert forall j :: 0 <= j < |prefix| ==> prefix[j] == parts[j];
    }
  }

  /** The body the loop's two results give: HTML when it is not empty, else the plain text
      escaped inside `<pre>`, else the placeholder. */
  function Body(b: Bodies): string {
    if b.html != [] then b.html
    else if b.plain != [] then "<pre>" + Escape(b.plain) + "</pre>"
    else NoContent
  }

  /** A message that is not multipart: its one part is decoded, CID-rewritten when it is
      HTML, redacted, and shown as it is when HTML and escaped inside `<pre>` otherwise. */
  function SingleBody(s: Settings, images: map<string, string>, p: Part): string {
    match TextOf(p, s.decode)
    case None => CouldNotDecode
    case Some(raw) =>
      if p.contentType == "text/html" then
        Anonymize(s.red, CidRewrite.ReplaceCidReferences(raw, images, s.preserve))
      else "<pre>" + Escape(Anonymize(s.red, raw)) + "</pre>"
  }

  /** The same as written: a CID step that raises lands in the `except`, which gives the
      placeholder for an undecodable message. */
  function SingleBodyAsWritten(s: Settings, images: map<string, string>, p: Part): string {
    match TextOf(p, s.decode)
    case None => CouldNotDecode
    case Some(raw) =>
      if p.contentType == "text/html" then
        match CidRewrite.ReplaceCidReferencesAsWritten(raw, images, s.preserve)
        case Some(x) => Anonymize(s.red, x)
        case None => CouldNotDecode
      else "<pre>" + Escape(Anonymize(s.red, raw)) + "</pre>"
  }

  /** `extract_email_content(msg, preserve_dimensions)`, with the corrected dimension
      cleaning. */
  function Extract(s: Settings, m: Message): string {
    var images := Images.ExtractImages(m);
    if m.multipart then Body(Collect(s, ReadHtml(s, images), Walk(m)))
    else SingleBody(s, images, m.root)
  }

  /** `extract_email_content` as written. */
  function ExtractAsWritten(s: Settings, m: Message): string {
    var images := Images.ExtractImages(m);
    if m.multipart then Body(Collect(s, ReadHtmlAsWritten(s, images), Walk(m)))
    else SingleBodyAsWritten(s, images, m.root)
  }

  /** The body of a multipart message, stated without the loop: the last decodable HTML part
      wins when its processed text is not empty; then the first plain part with something
      left after redaction, escaped; then the placeholder. */
  lemma MultipartBody(s: Settings, m: Message)
    requires m.multipart
    ensures var parts, read := Walk(m), ReadHtml(s, Images.ExtractImages(m));
            var html := match LastHtml(parts) case Some(i) => read(s.decode(parts[i].payload.value)) case None => [];
            Extract(s, m) ==
              if html != [] then html
              else match FirstPlain(s, parts)
                   case Some(j) => "<pre>" + Escape(PlainText(s, parts[j])) + "</pre>"
                   case None => NoContent
  {
    CollectHtml(s, ReadHtml(s, Images.ExtractImages(m)), Walk(m));
    CollectPlain(s, ReadHtml(s, Images.ExtractImages(m)), Walk(m));
  }

  /** An HTML body made by the corrected reader is redacted text: stripped, with a single
      space as its only whitespace. */
  lemma HtmlBodyRedacted(s: Settings, images: map<string, string>, raw: string)
    ensures Stripped(ReadHtml(s, images)(raw))
    ensures OnlyBlanks(ReadHtml(s, images)(raw), IsSpace)
  {
  }

  /** A later HTML part replaces what an earlier one gave, even when its own body is empty:
      appending a decodable HTML part makes its body the loop's HTML result. */
  lemma LaterHtmlWins(s: Settings, read: string -> string, parts: seq<Part>, p: Part)
    requires HtmlCandidate(p)
    ensures Collect(s, read, parts + [p]).html == read(s.decode(p.payload.value))
    ensures Collect(s, read, parts + [p]).plain == Collect(s, read, parts).plain
  {
    assert (parts + [p])[..|parts|] == parts;
  }

  /** Once a plain body is held, no later part changes it. */
  lemma PlainKept(s: Settings, read: string -> string, parts: seq<Part>, p: Part)
    requires Collect(s, read, parts).plain != []
    ensures Collect(s, read, parts + [p]).plain == Collect(s, read, parts).plain
  {
    assert (parts + [p])[..|parts|] == parts;
  }

  /** Where the CID step as written succeeds with the corrected result on every HTML text
      the loop reads, the two readers give the same loop result. */
  lemma {:induction false} CollectAgrees(s: Settings, r1: string -> string, r2: string -> string, parts: seq<Part>)
    requires forall i :: 0 <= i < |parts| && HtmlCandidate(parts[i]) ==>
               r1(s.decode(parts[i].payload.value)) == r2(s.decode(parts[i].payload.value))
    ensures Collect(s, r1, parts) == Collect(s, r2, parts)
    decreases |parts|
  {
    if parts != [] {
      var prefix := parts[..|parts| - 1];
      assert forall j :: 0 <= j < |prefix| ==> prefix[j] == parts[j];
      CollectAgrees(s, r1, r2, prefix);
    }
  }

  /** The CID step as written succeeds with the corrected result on `raw`. */
  predicate CidSafe(s: Settings, images: map<string, string>, raw: string) {
    CidRewrite.ReplaceCidReferencesAsWritten(raw, images, s.preserve) ==
      Some(CidRewrite.ReplaceCidReferences(raw, images, s.preserve))
  }

  /** Where every HTML text the code reads passes the CID step as written, the code as
      written gives the corrected body. */
  lemma ExtractAgrees(s: Settings, m: Message)
    requires var images := Images.ExtractImages(m);
             && (m.multipart ==> forall i :: 0 <= i < |Walk(m)| && HtmlCandidate(Walk(m)[i]) ==>
                   CidSafe(s, images, s.decode(Walk(m)[i].payload.value)))
             && (!m.multipart && m.root.contentType == "text/html" && m.root.payload.Some? ==>
                   CidSafe(s, images, s.decode(m.root.payload.value)))
    ensures ExtractAsWritten(s, m) == Extract(s, m)
  {
    var images := Images.ExtractImages(m);
    if m.multipart {
      CollectAgrees(s, ReadHtmlAsWritten(s, images), ReadHtml(s, images), Walk(m));
    } else {
      SingleAgrees(s, images, m.root);
    }
  }

  lemma SingleAgrees(s: Settings, images: map<string, string>, p: Part)
    requires p.contentType == "text/html" && p.payload.Some? ==> CidSafe(s, images, s.decode(p.payload.value))
    ensures SingleBodyAsWritten(s, images, p) == SingleBody(s, images, p)
  {
  }

  /** As written, when the CID step raises on the last HTML part, the body is that part's
      decoded text as it came, whatever the redaction rules would have removed from it. */
  lemma RaisingHtmlUnredacted(s: Settings, m: Message)
    requires m.multipart && LastHtml(Walk(m)).Some?
    requires var raw := s.decode(Walk(m)[LastHtml(Walk(m)).value].payload.value);
             raw != [] && CidRewrite.ReplaceCidReferencesAsWritten(raw, Images.ExtractImages(m), s.preserve).None?
    ensures ExtractAsWritten(s, m) == s.decode(Walk(m)[LastHtml(Walk(m)).value].payload.value)
  {
    CollectHtml(s, ReadHtmlAsWritten(s, Images.ExtractImages(m)), Walk(m));
  }

  /** The message of the counterexample: a `multipart/related` root, the HTML part, and an
      inline image with a file name. */
  predicate EscapedStyleShape(m: Message, b: seq<Byte>, png: seq<Byte>) {
    && png != []
    && m.multipart && m.root.contentType == "multipart/related"
    && m.subparts == [Part("text/html", "", "", "", Some(b)), Part("image/png", "inline", "", "logo.png", Some(png))]
  }

  lemma EscapedStyleWalk(m: Message, b: seq<Byte>, png: seq<Byte>)
    requires EscapedStyleShape(m, b, png)
    ensures |Walk(m)| == 3 && Walk(m)[0] == m.root
    ensures Walk(m)[1] == m.subparts[0] && Walk(m)[2] == m.subparts[1]
  {
    assert Walk(m) == [m.root] + m.subparts;
  }

  lemma EscapedStyleHtml(m: Message, b: seq<Byte>, png: seq<Byte>)
    requires EscapedStyleShape(m, b, png)
    ensures LastHtml(Walk(m)) == Some(1) && Walk(m)[1].payload == Some(b)
  {
    EscapedStyleWalk(m, b, png);
    var parts := Walk(m);
    assert !HtmlCandidate(parts[2]) && HtmlCandidate(parts[1]);
  }

  lemma EscapedStyleImage(m: Message, b: seq<Byte>, png: seq<Byte>)
    requires EscapedStyleShape(m, b, png)
    ensures Images.ExtractImages(m) != map[]
  {
    EscapedStyleWalk(m, b, png);
    var parts := Walk(m);
    assert Images.Registers(parts[2], "logo.png");
    Images.IndexKeys(parts, "logo.png");
  }

  lemma EscapedStyleNoPlain(s: Settings, m: Message, b: seq<Byte>, png: seq<Byte>)
    requires EscapedStyleShape(m, b, png)
    ensures FirstPlain(s, Walk(m)).None?
  {
    EscapedStyleWalk(m, b, png);
    var parts := Walk(m);
    assert forall i :: 0 <= i < |parts| ==> parts[i].contentType != "text/plain" by {
      assert "multipart/related"[0] != 't';
      assert "image/png"[0] != 't';
      assert "text/html"[5] != "text/plain"[5];
    }
    NoPlain(s, parts);
  }

  /** A multipart message without a plain fallback: the body is the last HTML part's, or
      the placeholder when that comes out empty. */
  lemma HtmlOnlyBody(s: Settings, m: Message, i: nat)
    requires m.multipart && LastHtml(Walk(m)) == Some(i) && FirstPlain(s, Walk(m)).None?
    ensures var h := ReadHtml(s, Images.ExtractImages(m))(s.decode(Walk(m)[i].payload.value));
            Extract(s, m) == if h != [] then h else NoContent
  {
    CollectHtml(s, ReadHtml(s, Images.ExtractImages(m)), Walk(m));
    CollectPlain(s, ReadHtml(s, Images.ExtractImages(m)), Walk(m));
  }

  /** When the CID step leaves the last HTML text as it is and there is no plain fallback,
      the body is the redacted HTML, or the placeholder when redaction leaves nothing. */
  lemma UnchangedHtmlBody(s: Settings, m: Message, i: nat, t: string)
    requires m.multipart && LastHtml(Walk(m)) == Some(i) && FirstPlain(s, Walk(m)).None?
    requires s.decode(Walk(m)[i].payload.value) == t
    requires CidRewrite.ReplaceCidReferences(t, Images.ExtractImages(m), s.preserve) == t
    ensures Extract(s, m) == var a := Anonymize(s.red, t); if a != [] then a else NoContent
  {
    HtmlOnlyBody(s, m, i);
  }

  /** A multipart message whose last HTML part is `<img style="\5">`, with no plain part and
      at least one image in the index: as written, the body is that HTML exactly as it came,
      without redaction; corrected, it is the redacted HTML (or the placeholder when
      redaction leaves nothing). */
  lemma EscapedStyleLast(s: Settings, m: Message, i: nat, t: string)
    requires t == Dimensions.EscapedStyleTag
    requires !s.preserve && m.multipart && Images.ExtractImages(m) != map[]
    requires LastHtml(Walk(m)) == Some(i) && s.decode(Walk(m)[i].payload.value) == t
    requires FirstPlain(s, Walk(m)).None?
    ensures ExtractAsWritten(s, m) == t
    ensures Extract(s, m) == var a := Anonymize(s.red, t); if a != [] then a else NoContent
  {
    CidRewrite.EscapedStyleCidRaises(t, Images.ExtractImages(m));
    RaisingHtmlUnredacted(s, m);
    UnchangedHtmlBody(s, m, i, t);
  }

  /** The counterexample as a whole message: a `multipart/related` message whose HTML part
      is `<img style="\5">`, next to an inline image. */
  lemma EscapedStyleMessage(s: Settings, m: Message, b: seq<Byte>, png: seq<Byte>, t: string)
    requires t == Dimensions.EscapedStyleTag
    requires !s.preserve && s.decode(b) == t
    requires EscapedStyleShape(m, b, png)
    ensures ExtractAsWritten(s, m) == t
    ensures Extract(s, m) == var a := Anonymize(s.red, t); if a != [] then a else NoContent
  {
    EscapedStyleHtml(m, b, png);
    EscapedStyleImage(m, b, png);
    EscapedStyleNoPlain(s, m, b, png);
    EscapedStyleLast(s, m, 1, t);
  }

  /** A message with no plain part has no plain fallback. */
  lemma NoPlain(s: Settings, parts: seq<Part>)
    requires forall i :: 0 <= i < |parts| ==> parts[i].contentType != "text/plain"
    ensures FirstPlain(s, parts).None?
  {
  }
}
