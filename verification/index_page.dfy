/** `generate_index_html`: the pages of a folder listed in one table, sorted by subject and
    numbered from 1, each linked through the folder's name from an index written beside the
    folder. For the folder `.` the index lands inside the folder itself while the links go
    through a sub-folder `html`, which is not where the pages are; `Link` is the corrected
    link, which names such a page by itself. */
module IndexPage {

  import opened Wrappers
  import opened Text
  import opened Paths
  import opened IndexEntry
  import Sorting
  import Sizes

  /** A name `os.listdir` gives, with what reading that file and examining it yield. */
  datatype Listing = Listing(name: string, content: Option<string>, size: Option<nat>)

  /** One row of the table; the size is the value and unit `format_file_size` formats. */
  datatype Row = Row(number: nat, link: string, subject: string, from: string, date: string, value: real, unit: string)

  /** The names the index lists: `.html` pages other than the index itself. */
  predicate IsPage(name: string) {
    EndsWith(name, ".html") && name != "index.html"
  }

  /** The record of one listed file, when it has one. */
  function InfoOf(folder: string, f: Listing): Option<EmailInfo> {
    if IsPage(f.name) then ExtractEmailInfo(Join(folder, f.name), f.content, f.size) else None
  }

  /** What `extract_email_info` gives for each listed name, in the order `os.listdir` gives
      them. */
  function Infos(folder: string, files: seq<Listing>): (r: seq<Option<EmailInfo>>)
    ensures |r| == |files|
    ensures forall i :: 0 <= i < |files| ==> r[i] == InfoOf(folder, files[i])
  {
    seq(|files|, i requires 0 <= i < |files| => InfoOf(folder, files[i]))
  }

  /** The records the index lists, before sorting. */
  function Collect(folder: string, files: seq<Listing>): (r: seq<EmailInfo>)
    ensures |r| <= |files|
  {
    Somes(Infos(folder, files))
  }

  /** The sort key: the subject lower-cased. */
  function SubjectKey(e: EmailInfo): string {
    Lower(e.subject)
  }

  /** The directory the index is written to: the folder's parent, or `.`. */
  function IndexDir(folder: string): string {
    if DirName(folder) != [] then DirName(folder) else "."
  }

  function IndexPath(folder: string): string {
    Join(IndexDir(folder), "index.html")
  }

  /** The name the links go through: the folder's last component, or `html` for `.`. */
  function FolderName(folder: string): string {
    if folder == "." then "html" else BaseName(folder)
  }

  /** The link as written: `f"{folder_name}/{filename}"`. */
  function LinkAsWritten(folder: string, filename: string): string {
    FolderName(folder) + "/" + filename
  }

  /** The link corrected: for `.` the index sits among the pages, so a page is linked by its
      name. */
  function Link(folder: string, filename: string): string {
    if folder == "." then filename else LinkAsWritten(folder, filename)
  }

  /** The row of the `i`-th record of the sorted list. */
  function RowOf(folder: string, i: nat, e: EmailInfo): Row {
    var k := Sizes.UnitIndex(e.size);
    Row(i + 1, LinkAsWritten(folder, e.filename), e.subject, e.from, e.date, Sizes.Scaled(e.size, k), Sizes.Units[k])
  }

  /** The table stated without loops. */
  function Table(folder: string, files: seq<Listing>): (rows: seq<Row>) {
    var sorted := Sorting.SortBy(Collect(folder, files), SubjectKey);
    seq(|sorted|, i requires 0 <= i < |sorted| => RowOf(folder, i, sorted[i]))
  }

  /** The loop over `os.listdir`: the records of the listed pages, in order. */
  method CollectInfos(folder: string, files: seq<Listing>) returns (htmlFiles: seq<EmailInfo>)
    ensures htmlFiles == Collect(folder, files)
  {
    var infos := Infos(folder, files);
    htmlFiles := [];
    var i := 0;
    while i < |files|
      invariant 0 <= i <= |files|
      invariant htmlFiles == Somes(infos[..i])
    {
      var f := files[i];
      assert infos[..i + 1][..i] == infos[..i];
      if IsPage(f.name) {
        var info := ExtractEmailInfo(Join(folder, f.name), f.content, f.size);
        if info.Some? {
          htmlFiles := htmlFiles + [info.value];
        }
      }
      i := i + 1;
    }
    assert infos[..i] == infos;
  }

  /** The loop over `enumerate(html_files, 1)`: one numbered row per record. */
  method BuildRows(folder: string, htmlFiles: seq<EmailInfo>) returns (rows: seq<Row>)
    ensures |rows| == |htmlFiles|
    ensures forall k :: 0 <= k < |rows| ==> rows[k] == RowOf(folder, k, htmlFiles[k])
  {
    rows := [];
    var j := 0;
    while j < |htmlFiles|
      invariant 0 <= j <= |htmlFiles|
      invariant |rows| == j
      invariant forall k :: 0 <= k < j ==> rows[k] == RowOf(folder, k, htmlFiles[k])
    {
      var email := htmlFiles[j];
      var value, unit := Sizes.FormatFileSize(email.size);
      rows := rows + [Row(j + 1, LinkAsWritten(folder, email.filename), email.subject, email.from, email.date, value, unit)];
      j := j + 1;
    }
  }

  /** `generate_index_html(folder)`: the path of the index and the rows of its table. */
  method GenerateIndex(folder: string, files: seq<Listing>) returns (path: string, rows: seq<Row>)
    ensures path == IndexPath(folder)
    ensures rows == Table(folder, files)
    ensures |rows| == |Collect(folder, files)|
    ensures forall i :: 0 <= i < |rows| ==> rows[i].number == i + 1
  {
    var htmlFiles := CollectInfos(folder, files);
    htmlFiles := Sorting.SortBy(htmlFiles, SubjectKey);
    rows := BuildRows(folder, htmlFiles);
    path := IndexPath(folder);
  }

  /** A record is listed exactly when some listed page gives it. */
  lemma CollectMembership(folder: string, files: seq<Listing>, e: EmailInfo)
    ensures e in Collect(folder, files) <==>
              exists i :: 0 <= i < |files| && IsPage(files[i].name) && InfoOf(folder, files[i]) == Some(e)
  {
    SomesMembership(Infos(folder, files), e);
  }

  /** A listed name has a record exactly when it is a page and `os.stat` can examine it. */
  lemma CollectCount(folder: string, files: seq<Listing>)
    ensures |Collect(folder, files)| == |set i | 0 <= i < |files| && IsPage(files[i].name) && files[i].size.Some?|
  {
    var xs := Infos(folder, files);
    SomesCount(xs);
    assert Present(xs) == set i | 0 <= i < |files| && IsPage(files[i].name) && files[i].size.Some?;
  }

  /** The table lists the records sorted by lower-cased subject. */
  lemma TableSorted(folder: string, files: seq<Listing>)
    ensures var rows := Table(folder, files);
            forall i, j :: 0 <= i < j < |rows| ==> Sorting.LexLe(Lower(rows[i].subject), Lower(rows[j].subject))
  {
    var sorted := Sorting.SortBy(Collect(folder, files), SubjectKey);
    Sorting.SortBySorted(Collect(folder, files), SubjectKey);
    assert forall i, j :: 0 <= i < j < |sorted| ==> Sorting.LexLe(SubjectKey(sorted[i]), SubjectKey(sorted[j]));
  }

  /** The table lists every record once, and records with the same lower-cased subject keep
      the order `os.listdir` gave them. */
  lemma TableStable(folder: string, files: seq<Listing>, k: string)
    ensures var sorted := Sorting.SortBy(Collect(folder, files), SubjectKey);
            && multiset(sorted) == multiset(Collect(folder, files))
            && Sorting.WithKey(sorted, SubjectKey, k) == Sorting.WithKey(Collect(folder, files), SubjectKey, k)
  {
    Sorting.SortByStable(Collect(folder, files), SubjectKey, k);
  }

  /** Joining a relative component to a directory that does not end with `/`. */
  lemma JoinRelative(a: string, b: string)
    requires a != [] && a[|a| - 1] != '/' && b != [] && b[0] != '/'
    ensures Join(a, b) == a + "/" + b
  {
  }

  /** For a folder inside a named parent directory the index is written into the parent. */
  lemma NestedIndexPath(parent: string, name: string)
    requires parent != [] && parent[|parent| - 1] != '/'
    requires name != [] && NoSlash(name)
    ensures IndexPath(Join(parent, name)) == Join(parent, "index.html")
  {
    JoinDirName(parent, name);
  }

  /** Such a folder's index directory is the parent and its links go through its name. */
  lemma NestedParts(parent: string, name: string, file: string)
    requires parent != [] && parent[|parent| - 1] != '/'
    requires name != [] && NoSlash(name)
    ensures IndexDir(Join(parent, name)) == parent
    ensures LinkAsWritten(Join(parent, name), file) == name + "/" + file
  {
    assert name[0] != '/';
    JoinRelative(parent, name);
    JoinDirName(parent, name);
    JoinBaseName(parent, name);
    assert |Join(parent, name)| >= 3;
  }

  /** For such a folder, a link opened from the index's directory reaches the page. */
  lemma NestedLinkResolves(parent: string, name: string, file: string)
    requires parent != [] && parent[|parent| - 1] != '/'
    requires name != [] && NoSlash(name) && file != [] && NoSlash(file)
    ensures Join(IndexDir(Join(parent, name)), LinkAsWritten(Join(parent, name), file)) == Join(Join(parent, name), file)
  {
    NestedParts(parent, name, file);
    assert name[0] != '/' && file[0] != '/';
    JoinRelative(parent, name);
    var folder := parent + "/" + name;
    JoinRelative(parent, name + "/" + file);
    JoinRelative(folder, file);
    Reassociate(parent, "/", name, file);
  }

  lemma Reassociate(p: string, sep: string, n: string, f: string)
    ensures p + sep + (n + sep + f) == (p + sep + n) + sep + f
  {
  }

  /** For a folder named without a directory part, the index goes to `.` and a link opened
      from there reaches the page. */
  lemma BareLinkResolves(name: string, file: string)
    requires name != [] && NoSlash(name) && name != "." && file != [] && NoSlash(file)
    ensures IndexDir(name) == "."
    ensures Join(IndexDir(name), LinkAsWritten(name, file)) == Join(".", Join(name, file))
  {
    assert name[0] != '/' && file[0] != '/';
    JoinRelative(name, file);
  }

  /** As written, for the folder `.` the index is written into the folder, and its link to a
      page goes through `html/`, which is not where the page is. */
  lemma DotLinkMisses(file: string)
    requires file != [] && NoSlash(file)
    ensures IndexDir(".") == "."
    ensures Join(IndexDir("."), LinkAsWritten(".", file)) == Join(".", Join("html", file))
    ensures Join(IndexDir("."), LinkAsWritten(".", file)) != Join(".", file)
  {
    assert file[0] != '/';
    JoinRelative("html", file);
    JoinRelative(".", "html/" + file);
    JoinRelative(".", file);
    assert |Join(".", Join("html", file))| != |Join(".", file)|;
  }

  /** Corrected, the link from the index to a page of `.` is the page's own path, and for
      every other folder the corrected link is the link as written. */
  lemma DotLinkResolves(file: string)
    requires file != [] && NoSlash(file)
    ensures Join(IndexDir("."), Link(".", file)) == Join(".", file)
    ensures forall folder :: folder != "." ==> Link(folder, file) == LinkAsWritten(folder, file)
  {
  }
}
