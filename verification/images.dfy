/** `extract_images_from_email`: the map from Content-ID and file name to a `data:` URI that
    carries the image inline. */
module Images {

  import opened Wrappers
  import opened Text
  import opened Mime
  import Base64

  /** `data:<type>;base64,<payload>` (section 3 of RFC 2397). */
  function DataUri(contentType: string, payload: seq<Byte>): string {
    DataUriPrefix(contentType) + Base64.Encode(payload)
  }

  function DataUriPrefix(contentType: string): string {
    "data:" + contentType + ";base64,"
  }

  predicate IsAngle(c: char) {
    c == '<' || c == '>'
  }

  /** `content_id.strip('<>')`. */
  function BareId(contentId: string): string {
    Trim(contentId, IsAngle)
  }

  /** An image part with a non-empty decoded payload: the only parts that are indexed. */
  predicate Embeddable(p: Part) {
    IsImage(p) && p.payload.Some? && p.payload.value != []
  }

  function UriOf(p: Part): string
    requires Embeddable(p)
  {
    DataUri(p.contentType, p.payload.value)
  }

  /** `k` is `cid:<id>` or `<id>` for a part with a Content-ID. */
  predicate IdKey(p: Part, k: string) {
    p.contentId != [] && (k == "cid:" + BareId(p.contentId) || k == BareId(p.contentId))
  }

  /** `k` is the part's file name. */
  predicate NameKey(p: Part, k: string) {
    p.filename != [] && k == p.filename
  }

  /** `k` is one of the keys an embeddable part is stored under: `cid:<id>` and `<id>` when
      it has a Content-ID, and its file name when it has one. */
  predicate Registers(p: Part, k: string) {
    Embeddable(p) && (IdKey(p, k) || NameKey(p, k))
  }

  /** No part after `i` is stored under `k`. */
  predicate LastFor(parts: seq<Part>, i: nat, k: string) {
    forall j :: i < j < |parts| ==> !Registers(parts[j], k)
  }

  /** Stores `uri` under `cid:<id>` and then under `<id>`, when the part has a Content-ID. */
  function StoreById(images: map<string, string>, p: Part, uri: string): (r: map<string, string>)
    ensures forall k :: k in r <==> k in images || IdKey(p, k)
    ensures forall k :: k in r ==> r[k] == if IdKey(p, k) then uri else images[k]
  {
    if p.contentId != [] then
      var id := BareId(p.contentId);
      images["cid:" + id := uri][id := uri]
    else images
  }

  /** Stores `uri` under the file name, when the part has one. */
  function StoreByName(images: map<string, string>, p: Part, uri: string): (r: map<string, string>)
    ensures forall k :: k in r <==> k in images || NameKey(p, k)
    ensures forall k :: k in r ==> r[k] == if NameKey(p, k) then uri else images[k]
  {
    if p.filename != [] then images[p.filename := uri] else images
  }

  /** One step of the loop: an embeddable part stores its URI under each of its keys,
      overwriting what an earlier part stored there; other parts change nothing. */
  function Register(images: map<string, string>, p: Part): (r: map<string, string>)
    ensures forall k :: k in r <==> k in images || Registers(p, k)
    ensures forall k :: k in r && Registers(p, k) ==> r[k] == UriOf(p)
    ensures forall k :: k in r && !Registers(p, k) ==> r[k] == images[k]
  {
    if !Embeddable(p) then images else StoreByName(StoreById(images, p, UriOf(p)), p, UriOf(p))
  }

  /** The loop over the parts in walk order: each part registered on top of the map built
      from the parts before it. */
  function BuildIndex(parts: seq<Part>): map<string, string>
    decreases |parts|
  {
    if parts == [] then map[] else Register(BuildIndex(parts[..|parts| - 1]), parts[|parts| - 1])
  }

  /** What one more part does to the map built from the parts before it. */
  lemma IndexStep(parts: seq<Part>, k: string)
    requires parts != []
    ensures var prev, r, p := BuildIndex(parts[..|parts| - 1]), BuildIndex(parts), parts[|parts| - 1];
            && (k in r <==> k in prev || Registers(p, k))
            && (k in r && Registers(p, k) ==> r[k] == UriOf(p))
            && (k in r && !Registers(p, k) ==> r[k] == prev[k])
  {
  }

  /** The position of the last part stored under `k`, if any part is. */
  function LastRegistering(parts: seq<Part>, k: string): (r: Option<nat>)
    ensures r.Some? ==> r.value < |parts| && Registers(parts[r.value], k) && LastFor(parts, r.value, k)
    ensures r.None? ==> forall i :: 0 <= i < |parts| ==> !Registers(parts[i], k)
    decreases |parts|
  {
    if parts == [] then None
    else if Registers(parts[|parts| - 1], k) then Some(|parts| - 1)
    else
      var r := LastRegistering(parts[..|parts| - 1], k);
      assert forall i :: 0 <= i < |parts| - 1 ==> parts[..|parts| - 1][i] == parts[i];
      r
  }

  /** The map holds `k` exactly when some part is stored under it, and then it holds the URI
      of the last such part. */
  lemma {:induction false} IndexLookup(parts: seq<Part>, k: string)
    ensures k in BuildIndex(parts) <==> LastRegistering(parts, k).Some?
    ensures k in BuildIndex(parts) ==> BuildIndex(parts)[k] == UriOf(parts[LastRegistering(parts, k).value])
    decreases |parts|
  {
    if parts != [] {
      IndexLookup(parts[..|parts| - 1], k);
      IndexStep(parts, k);
    }
  }

  /** A key is in the map exactly when some part is stored under it. */
  lemma IndexKeys(parts: seq<Part>, k: string)
    ensures k in BuildIndex(parts) <==> exists i :: 0 <= i < |parts| && Registers(parts[i], k)
  {
    IndexLookup(parts, k);
  }

  /** A key holds the URI of the last part stored under it: later parts overwrite earlier ones. */
  lemma IndexLast(parts: seq<Part>, i: nat, k: string)
    requires i < |parts| && Registers(parts[i], k) && LastFor(parts, i, k)
    ensures k in BuildIndex(parts) && BuildIndex(parts)[k] == UriOf(parts[i])
  {
    IndexLookup(parts, k);
    var j := LastRegistering(parts, k).value;
    assert !(i < j) && !(j < i);
  }

  /** `extract_images_from_email(msg)`. */
  function ExtractImages(m: Message): map<string, string> {
    BuildIndex(Walk(m))
  }

  /** The URI names the part's type and carries its payload: what follows the prefix decodes
      back to the image bytes. */
  lemma UriCarriesPayload(p: Part)
    requires Embeddable(p)
    ensures StartsWith(UriOf(p), DataUriPrefix(p.contentType))
    ensures Base64.Decode(UriOf(p)[|DataUriPrefix(p.contentType)|..]) == Some(p.payload.value)
  {
    var pre := DataUriPrefix(p.contentType);
    assert UriOf(p)[..|pre|] == pre;
    assert UriOf(p)[|pre|..] == Base64.Encode(p.payload.value);
    Base64.DecodeEncode(p.payload.value);
  }

  /** A message whose parts carry no image with content adds nothing to the map. */
  lemma NoImagesNoKeys(parts: seq<Part>)
    requires forall i :: 0 <= i < |parts| ==> !Embeddable(parts[i])
    ensures BuildIndex(parts) == map[]
  {
    var r := BuildIndex(parts);
    forall k
      ensures k !in r
    {
      IndexLookup(parts, k);
    }
    assert r.Keys == {};
  }

  /** An image part with a Content-ID is found under the id with and without `cid:`, unless
      a later part claims the same key. */
  lemma ContentIdKeys(parts: seq<Part>, i: nat)
    requires i < |parts| && Embeddable(parts[i]) && parts[i].contentId != []
    requires LastFor(parts, i, "cid:" + BareId(parts[i].contentId))
    requires LastFor(parts, i, BareId(parts[i].contentId))
    ensures var r := BuildIndex(parts);
            && "cid:" + BareId(parts[i].contentId) in r
            && r["cid:" + BareId(parts[i].contentId)] == UriOf(parts[i])
            && BareId(parts[i].contentId) in r
            && r[BareId(parts[i].contentId)] == UriOf(parts[i])
  {
    IndexLast(parts, i, "cid:" + BareId(parts[i].contentId));
    IndexLast(parts, i, BareId(parts[i].contentId));
  }

  /** `BareId` leaves no angle bracket at either end and removes nothing else. */
  lemma BareIdSpec(contentId: string)
    ensures TrimmedBy(BareId(contentId), IsAngle)
    ensures BareId(contentId) == contentId[TrimOffset(contentId, IsAngle)..TrimOffset(contentId, IsAngle) + |BareId(contentId)|]
    ensures forall k :: 0 <= k < TrimOffset(contentId, IsAngle) ==> IsAngle(contentId[k])
    ensures forall k :: TrimOffset(contentId, IsAngle) + |BareId(contentId)| <= k < |contentId| ==> IsAngle(contentId[k])
  {
    TrimSpec(contentId, IsAngle);
  }
}
