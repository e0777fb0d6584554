/** `extract_attachments_info`: the list of real attachments shown under the message body.
    Only parts explicitly marked as attachments and carrying a file name are listed; an image
    that is also marked inline is left out, since its content is already shown in the body. */
module Attachments {

  import opened Wrappers
  import opened Text
  import opened Mime

  /** One entry of the list: the file name, the content type and the decoded size in bytes. */
  datatype AttachmentInfo = AttachmentInfo(filename: string, contentType: string, size: nat)

  /** The test a part must pass to be listed. */
  predicate Listed(p: Part) {
    && MarkedAttachment(p)
    && p.filename != ""
    && (!IsImage(p) || !MarkedInline(p))
  }

  /** The size of the decoded payload, 0 when there is none. */
  function PayloadSize(p: Part): (r: nat)
    ensures p.payload.Some? ==> r == |p.payload.value|
    ensures p.payload.None? ==> r == 0
  {
    match p.payload
    case Some(b) => |b|
    case None => 0
  }

  function Info(p: Part): AttachmentInfo {
    AttachmentInfo(p.filename, p.contentType, PayloadSize(p))
  }

  /** The entries for `parts`, in walk order. */
  function AttachmentsOf(parts: seq<Part>): (r: seq<AttachmentInfo>)
    ensures |r| <= |parts|
    decreases |parts|
  {
    if parts == [] then []
    else AttachmentsOf(parts[..|parts| - 1]) + (if Listed(parts[|parts| - 1]) then [Info(parts[|parts| - 1])] else [])
  }

  /** The loop over `msg.walk()`. */
  method ExtractAttachmentsInfo(m: Message) returns (r: seq<AttachmentInfo>)
    ensures forall e :: e in r <==> exists i :: 0 <= i < |Walk(m)| && Listed(Walk(m)[i]) && e == Info(Walk(m)[i])
    ensures forall k :: 0 <= k < |r| ==> r[k].filename != ""
    ensures r == AttachmentsOf(Walk(m))
  {
    var parts := Walk(m);
    r := [];
    var i := 0;
    while i < |parts|
      invariant 0 <= i <= |parts|
      invariant r == AttachmentsOf(parts[..i])
    {
      assert parts[..i + 1][..i] == parts[..i];
      if Listed(parts[i]) {
        r := r + [Info(parts[i])];
      }
      i := i + 1;
    }
    assert parts[..i] == parts;
    AttachmentsMembership(parts);
    AttachmentsNamed(parts);
  }

  /** An entry is listed exactly when some part passes the test and describes it. */
  lemma {:induction false} AttachmentsMembership(parts: seq<Part>)
    ensures forall e :: e in AttachmentsOf(parts) <==> exists i :: 0 <= i < |parts| && Listed(parts[i]) && e == Info(parts[i])
    decreases |parts|
  {
    if parts != [] {
      var n := |parts| - 1;
      AttachmentsMembership(parts[..n]);
      forall e | e in AttachmentsOf(parts)
        ensures exists i :: 0 <= i < |parts| && Listed(parts[i]) && e == Info(parts[i])
      {
        if e in AttachmentsOf(parts[..n]) {
          var i :| 0 <= i < n && Listed(parts[..n][i]) && e == Info(parts[..n][i]);
          assert parts[i] == parts[..n][i];
        }
      }
      forall e | exists i :: 0 <= i < |parts| && Listed(parts[i]) && e == Info(parts[i])
        ensures e in AttachmentsOf(parts)
      {
        var i :| 0 <= i < |parts| && Listed(parts[i]) && e == Info(parts[i]);
        if i < n {
          assert parts[..n][i] == parts[i];
        }
      }
    }
  }

  /** Every entry carries a file name. */
  lemma {:induction false} AttachmentsNamed(parts: seq<Part>)
    ensures forall k :: 0 <= k < |AttachmentsOf(parts)| ==> AttachmentsOf(parts)[k].filename != ""
    decreases |parts|
  {
    if parts != [] {
      AttachmentsNamed(parts[..|parts| - 1]);
    }
  }

  /** Listing two runs of parts one after the other lists them one after the other. */
  lemma {:induction false} AttachmentsConcat(a: seq<Part>, b: seq<Part>)
    ensures AttachmentsOf(a + b) == AttachmentsOf(a) + AttachmentsOf(b)
    decreases |b|
  {
    if b == [] {
      assert a + b == a;
    } else {
      var n := |b| - 1;
      assert (a + b)[..|a + b| - 1] == a + b[..n];
      assert (a + b)[|a + b| - 1] == b[n];
      AttachmentsConcat(a, b[..n]);
    }
  }

  /** The entry of a listed part sits after the entries of the parts before it: the list keeps
      walk order. */
  lemma AttachmentAt(parts: seq<Part>, i: nat)
    requires i < |parts| && Listed(parts[i])
    ensures var k := |AttachmentsOf(parts[..i])|;
            k < |AttachmentsOf(parts)| && AttachmentsOf(parts)[k] == Info(parts[i])
  {
    assert parts == parts[..i] + ([parts[i]] + parts[i + 1..]);
    AttachmentsConcat(parts[..i], [parts[i]] + parts[i + 1..]);
    AttachmentsConcat([parts[i]], parts[i + 1..]);
    assert AttachmentsOf([parts[i]]) == [Info(parts[i])] by {
      assert [parts[i]][..0] == [];
    }
  }

  /** An image marked both as attachment and inline is never listed; any other marked part
      with a name is, whatever its type. */
  lemma ListedCases(p: Part)
    ensures IsImage(p) && MarkedInline(p) ==> !Listed(p)
    ensures MarkedAttachment(p) && p.filename != "" && !IsImage(p) ==> Listed(p)
    ensures !MarkedAttachment(p) || p.filename == "" ==> !Listed(p)
  {
  }
}
