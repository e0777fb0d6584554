/** A parsed e-mail message as the converters see it: the parts in `msg.walk()` order and
    what the converters read from each part. MIME parsing and transfer decoding happen before
    this point and are not part of this model. */
module Mime {

  import opened Wrappers
  import opened Text
  import Base64

  type Byte = Base64.Byte

  /** One node of the MIME tree.
      `contentType` is `get_content_type()` (lower-case `maintype/subtype`);
      `disposition` is `str(part.get("Content-Disposition", ""))`;
      `contentId` is `part.get("Content-ID", "")`;
      `filename` is `part.get_filename()`, with `""` for a missing name (every use tests its
      truthiness, so the two cannot be told apart);
      `payload` is `get_payload(decode=True)`, `None` for a container or a payload that
      cannot be decoded. */
  datatype Part = Part(
    contentType: string,
    disposition: string,
    contentId: string,
    filename: string,
    payload: Option<seq<Byte>>)

  /** The four headers the converters print; `None` when the header is absent. */
  datatype Headers = Headers(subject: Option<string>, from: Option<string>, to: Option<string>, date: Option<string>)

  /** A message: its headers, whether its root is multipart, its root part, and the parts
      below the root in walk order. */
  datatype Message = Message(headers: Headers, multipart: bool, root: Part, subparts: seq<Part>)

  /** `msg.walk()`: the root first, then (for a multipart message) every part below it. */
  function Walk(m: Message): seq<Part> {
    [m.root] + (if m.multipart then m.subparts else [])
  }

  /** `bytes.decode('utf-8', errors='replace')`: total, supplied by the caller. */
  type Utf8Decoder = seq<Byte> -> string

  predicate IsImage(p: Part) {
    StartsWith(p.contentType, "image/")
  }

  /** The disposition mentions `attachment` anywhere (a substring test, as in the source). */
  predicate MarkedAttachment(p: Part) {
    Contains(p.disposition, "attachment")
  }

  /** The disposition mentions `inline` anywhere. */
  predicate MarkedInline(p: Part) {
    Contains(p.disposition, "inline")
  }

  /** The decoded text of a part, or `None` where `get_payload(decode=True).decode(...)`
      raises because there is no payload. */
  function TextOf(p: Part, decode: Utf8Decoder): Option<string> {
    match p.payload
    case Some(b) => Some(decode(b))
    case None => None
  }

  /** The position of the first part that satisfies `P`, if any. */
  function FirstWhere(parts: seq<Part>, P: Part -> bool): (r: Option<nat>)
    ensures r.Some? ==> r.value < |parts| && P(parts[r.value])
    ensures r.Some? ==> forall j :: 0 <= j < r.value ==> !P(parts[j])
    ensures r.None? ==> forall j :: 0 <= j < |parts| ==> !P(parts[j])
    decreases |parts|
  {
    if parts == [] then None
    else
      var prev := FirstWhere(parts[..|parts| - 1], P);
      assert forall j :: 0 <= j < |parts| - 1 ==> parts[..|parts| - 1][j] == parts[j];
      if prev.Some? then prev
      else if P(parts[|parts| - 1]) then Some(|parts| - 1)
      else None
  }
}
