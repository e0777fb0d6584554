/** The POSIX path helpers the converters and the index builder use: `os.path.basename`,
    `os.path.dirname`, `os.path.join` of two components, and `pathlib.PurePath.stem`. */
module Paths {

  import opened Wrappers
  import opened Text

  predicate NoSlash(s: string) {
    forall k :: 0 <= k < |s| ==> s[k] != '/'
  }

  /** `os.path.basename(p)`: what follows the last `/`. */
  function BaseName(p: string): (r: string)
    ensures EndsWith(p, r) && NoSlash(r)
    ensures NoSlash(p) ==> r == p
  {
    match LastIndexOf(p, '/')
    case Some(i) => p[i + 1..]
    case None => p
  }

  predicate AllSlashes(s: string) {
    forall k :: 0 <= k < |s| ==> s[k] == '/'
  }

  /** `os.path.dirname(p)`: what comes up to the last `/`, without its trailing slashes unless
      it is made of slashes only. */
  function DirName(p: string): (r: string)
    ensures StartsWith(p, r)
    ensures NoSlash(p) ==> r == []
  {
    var head := match LastIndexOf(p, '/') case Some(i) => p[..i + 1] case None => [];
    if head != [] && !AllSlashes(head) then TrimEnd(head, c => c == '/') else head
  }

  /** `os.path.join(a, b)`: `b` alone when it is absolute; otherwise `a` and `b` with one `/`
      between them unless `a` is empty or already ends with one. */
  function Join(a: string, b: string): (r: string)
    ensures EndsWith(r, b)
  {
    if StartsWith(b, "/") then b
    else if a == [] || EndsWith(a, "/") then a + b
    else a + "/" + b
  }

  /** `PurePath(name).stem` of a final component: the name without its last suffix, where a
      suffix starts at a `.` that is neither the first nor the last character. */
  function Stem(name: string): (r: string)
    ensures StartsWith(name, r)
  {
    match LastIndexOf(name, '.')
    case Some(i) => if 0 < i < |name| - 1 then name[..i] else name
    case None => name
  }

  /** A prefix of a name without slashes, followed by a suffix without slashes, has none. */
  lemma NoSlashRenamed(s: string, k: nat, suffix: string)
    requires NoSlash(s) && k <= |s| && NoSlash(suffix)
    ensures NoSlash(s[..k] + suffix)
  {
    var r := s[..k] + suffix;
    forall i | 0 <= i < |r|
      ensures r[i] != '/'
    {
      if i < k {
        assert r[i] == s[i];
      } else {
        assert r[i] == suffix[i - k];
      }
    }
  }

  /** The last component of a joined path is the component joined. */
  lemma JoinBaseName(a: string, b: string)
    requires b != [] && NoSlash(b)
    ensures BaseName(Join(a, b)) == b
  {
    var r := Join(a, b);
    assert b[0] != '/';
    assert r == (if a == [] || EndsWith(a, "/") then a else a + "/") + b;
    if a != [] {
      var k := |r| - |b| - 1;
      assert r[k] == '/';
      LastIndexOfIs(r, '/', k);
      assert r[k + 1..] == b;
    }
  }

  /** The directory of a joined path is the directory joined, when it is not empty and does
      not end with a slash. */
  lemma JoinDirName(a: string, b: string)
    requires a != [] && a[|a| - 1] != '/'
    requires b != [] && NoSlash(b)
    ensures DirName(Join(a, b)) == a
  {
    var r := Join(a, b);
    assert b[0] != '/';
    assert r == a + "/" + b;
    LastIndexOfIs(r, '/', |a|);
    var head := r[..|a| + 1];
    assert head == a + "/";
    assert head[|a| - 1] == a[|a| - 1];
    assert TrimEnd(head, c => c == '/') == TrimEnd(a, c => c == '/');
    TrimEndKept(a, c => c == '/');
  }

  /** A name made of a stem, a dot and an extension without dots has that stem. */
  lemma StemOfSuffixed(s: string, e: string)
    requires s != [] && e != []
    requires forall k :: 0 <= k < |e| ==> e[k] != '.'
    ensures Stem(s + "." + e) == s
  {
    var name := s + "." + e;
    LastIndexOfIs(name, '.', |s|);
    assert name[..|s|] == s;
  }
}
