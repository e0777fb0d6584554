/** `extract_email_info`: the record the index keeps for one page. The three header values
    are read from the page; a subject that is missing or too short is replaced by the file
    name, with a leading `[list-name]` tag followed by exactly one space; the values are cut
    to 150, 100 and 50 characters. When the page cannot be read, the record falls back to the
    file name and `Unknown`; when the file cannot even be examined there is no record. */
module IndexEntry {

  import opened Wrappers
  import opened Text
  import opened Scan
  import opened Paths
  import opened Fields
  import HtmlEscape
  import Entities
  import Readback

  const NoSubject := "No Subject"
  const SubjectLimit := 150
  const FromLimit := 100
  const DateLimit := 50

  /** The record: the modification time it also holds is not part of this model. */
  datatype EmailInfo = EmailInfo(filename: string, subject: string, from: string, date: string, size: nat)

  /** A subject read from the page that is replaced by the file name. */
  predicate NeedsFallback(s: string) {
    s == Unknown || s == NoSubject || s == [] || |s| < 3
  }

  /** `filename.replace('.html', '')`. */
  function FileSubject(filename: string): string {
    Replace(filename, ".html", "")
  }

  /** A character the lazy `(.*?)` of the tag pattern may not pass: the `]` that ends the
      tag, or a newline, which `.` does not match. */
  predicate TagStop(c: char) {
    c == ']' || c == '\n'
  }

  /** `^\[(.*?)\]` can end with the `]` at `k`: the text opens with `[` and nothing the
      group may not pass comes before `k`. */
  predicate TagClosesAt(s: string, k: nat) {
    0 < k < |s| && s[0] == '[' && s[k] == ']' && forall i :: 1 <= i < k ==> !TagStop(s[i])
  }

  /** Where the `]` of a leading `[...]` tag is, when `^\[(.*?)\]` matches: the one place the
      pattern can end, and no place when it does not match. */
  function TagEnd(s: string): (r: Option<nat>)
    ensures r.Some? ==> TagClosesAt(s, r.value)
    ensures r.None? ==> forall k :: 0 < k < |s| ==> !TagClosesAt(s, k)
  {
    if s == [] || s[0] != '[' then None
    else
      var k := RunEnd(s, 1, c => !TagStop(c));
      if k < |s| && s[k] == ']' then Some(k) else None
  }

  /** `re.sub(r'^\[(.*?)\]\s*', r'[\1] ', s)`: the tag kept, the whitespace after it
      replaced by one space. */
  function NormalizeTag(s: string): string {
    match TagEnd(s)
    case Some(k) => "[" + s[1..k] + "] " + s[SkipSpace(s, k + 1)..]
    case None => s
  }

  /** The subject chosen: the value read from the page, or the file name. */
  function ChosenSubject(filename: string, value: string): (r: string)
    ensures !NeedsFallback(value) ==> r == value
    ensures NeedsFallback(value) ==> r == NormalizeTag(FileSubject(filename))
  {
    if NeedsFallback(value) then NormalizeTag(FileSubject(filename)) else value
  }

  /** `extract_email_info(path)`, with the page's text (`None` when reading or decoding it
      fails) and its size (`None` when `os.stat` fails) as inputs. */
  function ExtractEmailInfo(path: string, content: Option<string>, size: Option<nat>): (r: Option<EmailInfo>)
    ensures r.Some? <==> size.Some?
    ensures r.Some? ==> r.value.filename == BaseName(path) && r.value.size == size.value
    ensures r.Some? && content.Some? ==>
              |r.value.subject| <= SubjectLimit && |r.value.from| <= FromLimit && |r.value.date| <= DateLimit
    ensures r.Some? && content.None? ==>
              r.value.subject == FileSubject(BaseName(path)) && r.value.from == Unknown && r.value.date == Unknown
  {
    match size
    case None => None
    case Some(n) =>
      var filename := BaseName(path);
      match content
      case None => Some(EmailInfo(filename, FileSubject(filename), Unknown, Unknown, n))
      case Some(c) =>
        Some(EmailInfo(
          filename,
          Take(ChosenSubject(filename, SubjectValue(c)), SubjectLimit),
          Take(FromValue(c), FromLimit),
          Take(DateValue(c), DateLimit),
          n))
  }

  /** The first stop after a normalized tag is its `]`. */
  lemma NormalizedTagEnd(g: string, rest: string)
    requires forall i :: 0 <= i < |g| ==> !TagStop(g[i])
    ensures TagEnd("[" + g + "] " + rest) == Some(|g| + 1)
  {
    var r := "[" + g + "] " + rest;
    forall i | 1 <= i < |g| + 1
      ensures !TagStop(r[i])
    {
      assert r[i] == g[i - 1];
    }
    RunEndIs(r, 1, c => !TagStop(c), |g| + 1);
  }

  /** Normalizing twice is normalizing once: a normalized tag is followed by exactly one
      space and then by something that is not whitespace. */
  lemma NormalizeTagIdempotent(s: string)
    ensures NormalizeTag(NormalizeTag(s)) == NormalizeTag(s)
  {
    match TagEnd(s)
    case None =>
    case Some(k) =>
      var g := s[1..k];
      var j := SkipSpace(s, k + 1);
      var t := "[" + g + "] " + s[j..];
      assert NormalizeTag(s) == t;
      assert forall i :: 0 <= i < |g| ==> g[i] == s[i + 1];
      NormalizedFixed(g, s[j..], s, j);
      assert NormalizeTag(t) == t;
  }

  /** A normalized tag is left as it is. */
  lemma NormalizedFixed(g: string, rest: string, s: string, j: nat)
    requires forall i :: 0 <= i < |g| ==> !TagStop(g[i])
    requires j <= |s| && rest == s[j..] && (j < |s| ==> !IsSpace(s[j]))
    ensures NormalizeTag("[" + g + "] " + rest) == "[" + g + "] " + rest
  {
    var r := "[" + g + "] " + rest;
    NormalizedTagEnd(g, rest);
    assert r[1..|g| + 1] == g;
    RestAfterSpace(g, rest, s, j);
    assert r[|g| + 3..] == rest;
  }

  /** The whitespace run after the normalized `] ` is that one space. */
  lemma RestAfterSpace(g: string, rest: string, s: string, j: nat)
    requires j <= |s| && rest == s[j..] && (j < |s| ==> !IsSpace(s[j]))
    ensures SkipSpace("[" + g + "] " + rest, |g| + 2) == |g| + 3
  {
    var r := "[" + g + "] " + rest;
    assert r[|g| + 2] == ' ';
    if rest != [] {
      assert r[|g| + 3] == rest[0] == s[j];
    }
    RunEndIs(r, |g| + 2, IsSpace, |g| + 3);
  }

  /** Normalizing changes only spacing: the characters that are not whitespace are kept, in
      order. */
  lemma NormalizeTagKeepsText(s: string)
    ensures Without(NormalizeTag(s), IsSpace) == Without(s, IsSpace)
  {
    match TagEnd(s)
    case None =>
    case Some(k) =>
      var j := SkipSpace(s, k + 1);
      var head := s[..k + 1];
      var gap := s[k + 1..j];
      assert head == "[" + s[1..k] + "]";
      assert s == head + gap + s[j..];
      assert NormalizeTag(s) == head + " " + s[j..];
      assert forall i :: 0 <= i < |gap| ==> gap[i] == s[k + 1 + i];
      WithoutGap(head, gap, " ", s[j..], IsSpace);
  }

  /** The index lists a converted page under the subject the converter wrote into its title
      (cut to 150 characters), when that subject is long enough to be kept. */
  lemma ConvertedSubjectListed(path: string, content: string, pre: string, s: string, rest: string, n: nat)
    requires Readback.NoTitleTag(pre) && Readback.NoApostrophe(s) && Entities.NoAmpersand(s) && Stripped(s)
    requires !NeedsFallback(s)
    requires content == pre + "<title>" + HtmlEscape.Escape(s) + "</title>" + rest
    requires |pre| + |HtmlEscape.Escape(s)| + 15 <= Window
    ensures ExtractEmailInfo(path, Some(content), Some(n)).value.subject == Take(s, SubjectLimit)
  {
    Readback.SubjectReadBack(content, pre, s, rest);
  }

  /** A page with no markup in its first 5000 characters is listed under its file name,
      with the sender and the date unknown. */
  lemma UnmarkedPageListed(path: string, content: string, n: nat)
    requires NoOpen(Take(content, Window))
    ensures ExtractEmailInfo(path, Some(content), Some(n)) ==
              Some(EmailInfo(BaseName(path), Take(NormalizeTag(FileSubject(BaseName(path))), SubjectLimit), Unknown, Unknown, n))
  {
    NoOpenUnknown(content);
  }
}
