/** What `eml_to_html` and `convert_all_eml_files` decide around the body: the four header
    values shown on the page, which files of the input tree are converted, and where each
    page is written. The three converters agree on all of this. */
module Conversion {

  import opened Wrappers
  import opened Text
  import opened Mime
  import opened Redaction
  import opened Paths

  /** The header values as the page shows them (before HTML escaping). */
  datatype ShownHeaders = ShownHeaders(subject: string, from: string, to: string, date: string)

  const NoSubject := "No Subject"
  const Unknown := "Unknown"

  /** `msg.get(name, default)` for the four headers, with `From` and `To` passed through the
      redaction. */
  function ShowHeaders(red: Redactor, h: Headers): (r: ShownHeaders)
    ensures r.subject == if h.subject.Some? then h.subject.value else NoSubject
    ensures r.date == if h.date.Some? then h.date.value else Unknown
    ensures Stripped(r.from) && OnlyBlanks(r.from, IsSpace)
    ensures Stripped(r.to) && OnlyBlanks(r.to, IsSpace)
    ensures r.from == Anonymize(red, if h.from.Some? then h.from.value else Unknown)
    ensures r.to == Anonymize(red, if h.to.Some? then h.to.value else Unknown)
  {
    ShownHeaders(
      h.subject.GetOr(NoSubject),
      Anonymize(red, h.from.GetOr(Unknown)),
      Anonymize(red, h.to.GetOr(Unknown)),
      h.date.GetOr(Unknown))
  }

  /** Only `From` and `To` depend on the redaction rules: whatever the rules, the subject and
      the date are shown as they came (or as their defaults). */
  lemma OnlyAddressesRedacted(r1: Redactor, r2: Redactor, h: Headers)
    ensures ShowHeaders(r1, h).subject == ShowHeaders(r2, h).subject
    ensures ShowHeaders(r1, h).date == ShowHeaders(r2, h).date
    ensures h.from == h.to ==> ShowHeaders(r1, h).from == ShowHeaders(r1, h).to
  {
  }

  /** `file.lower().endswith('.eml')`. Lower-casing is ASCII here; no other character
      lower-cases to `.`, `e`, `m` or `l`. */
  predicate IsEml(file: string) {
    EndsWith(Lower(file), ".eml")
  }

  /** The selection stated character by character: the name ends with a dot followed by the
      letters e, m and l, each in either case. */
  lemma IsEmlIff(file: string)
    ensures IsEml(file) <==>
              var n := |file|;
              && n >= 4
              && file[n - 4] == '.'
              && (file[n - 3] == 'e' || file[n - 3] == 'E')
              && (file[n - 2] == 'm' || file[n - 2] == 'M')
              && (file[n - 1] == 'l' || file[n - 1] == 'L')
  {
    var n := |file|;
    var l := Lower(file);
    if n >= 4 {
      var tail := l[n - 4..];
      assert tail == [l[n - 4], l[n - 3], l[n - 2], l[n - 1]];
      assert IsEml(file) <==> tail == ".eml";
    }
  }

  /** One file met by `os.walk`: the directory it sits in and its name. */
  datatype Found = Found(root: string, file: string)

  /** The path `os.walk` gives for one file, when its name ends in `.eml`. */
  function Selected(f: Found): Option<string> {
    if IsEml(f.file) then Some(Join(f.root, f.file)) else None
  }

  /** What each file met contributes, in walk order. */
  function Selections(found: seq<Found>): (r: seq<Option<string>>)
    ensures |r| == |found|
    ensures forall i :: 0 <= i < |found| ==> r[i] == Selected(found[i])
  {
    seq(|found|, i requires 0 <= i < |found| => Selected(found[i]))
  }

  /** The paths of the `.eml` files, in the order the walk meets them. */
  function EmlFiles(found: seq<Found>): (r: seq<string>)
    ensures |r| <= |found|
  {
    Somes(Selections(found))
  }

  /** A path is selected exactly when some file met has a `.eml` name and joins to it. */
  lemma EmlFilesMembership(found: seq<Found>, path: string)
    ensures path in EmlFiles(found) <==> exists i :: 0 <= i < |found| && IsEml(found[i].file) && path == Join(found[i].root, found[i].file)
  {
    SomesMembership(Selections(found), path);
  }

  /** The output directory: the one given, or `html_output` inside the input directory. */
  function OutputDir(input: string, given: Option<string>): (r: string)
    ensures given.Some? ==> r == given.value
    ensures given.None? ==> BaseName(r) == "html_output"
    ensures given.None? && input != [] && input[|input| - 1] != '/' ==> DirName(r) == input
  {
    match given
    case Some(d) => d
    case None =>
      JoinBaseName(input, "html_output");
      if input != [] && input[|input| - 1] != '/' then
        JoinDirName(input, "html_output");
        Join(input, "html_output")
      else
        Join(input, "html_output")
  }

  /** `os.path.join(output_dir, f"{Path(eml_file_path).stem}.html")`. */
  function OutputPath(dir: string, emlPath: string): string {
    Join(dir, Stem(BaseName(emlPath)) + ".html")
  }

  /** The stem of a `.eml` name longer than its suffix is the name without the suffix. */
  lemma EmlStem(file: string)
    requires IsEml(file) && |file| > 4
    ensures Stem(file) == file[..|file| - 4]
  {
    IsEmlIff(file);
    var n := |file|;
    assert file == file[..n - 4] + "." + file[n - 3..];
    StemOfSuffixed(file[..n - 4], file[n - 3..]);
  }

  /** A page is written into the output directory, under the name of its message file with
      the `.eml` suffix (in any case) replaced by `.html`. */
  lemma OutputName(dir: string, root: string, file: string)
    requires IsEml(file) && |file| > 4 && NoSlash(file)
    ensures BaseName(OutputPath(dir, Join(root, file))) == file[..|file| - 4] + ".html"
  {
    JoinBaseName(root, file);
    EmlStem(file);
    PageName(dir, Join(root, file), file[..|file| - 4]);
  }

  lemma PageName(dir: string, path: string, stem: string)
    requires Stem(BaseName(path)) == stem && NoSlash(stem)
    ensures BaseName(OutputPath(dir, path)) == stem + ".html"
  {
    NoSlashRenamed(stem, |stem|, ".html");
    assert stem[..|stem|] == stem;
    JoinBaseName(dir, stem + ".html");
  }

  /** A file named just `.eml` keeps its whole name as its stem: its page is `.eml.html`. */
  lemma BareSuffixName(file: string)
    requires file == ".eml"
    ensures IsEml(file)
    ensures Stem(file) == file
  {
    IsEmlIff(file);
    LastIndexOfIs(file, '.', 0);
  }

  /** The walk descends into sub-directories but every page goes to the one output
      directory: two messages with the same file name in different directories are written
      to the same path, and the later overwrites the earlier. */
  lemma SameNameSamePage(dir: string, root1: string, root2: string, file: string)
    requires file != [] && NoSlash(file)
    ensures OutputPath(dir, Join(root1, file)) == OutputPath(dir, Join(root2, file))
  {
    JoinBaseName(root1, file);
    JoinBaseName(root2, file);
  }

  /** Names that differ only in the case of their suffix, such as `m.eml` and `m.EML`, are
      both converted and share a page. */
  lemma SuffixCaseSamePage(dir: string, a: string, b: string)
    requires IsEml(a) && IsEml(b) && |a| == |b| > 4 && NoSlash(a) && NoSlash(b)
    requires a[..|a| - 4] == b[..|b| - 4]
    ensures OutputPath(dir, a) == OutputPath(dir, b)
  {
    EmlStem(a);
    EmlStem(b);
  }
}
