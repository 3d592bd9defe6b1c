/**
 * Two names the store derives from strings: the filename a download is
 * saved under, and the name of the current page taken from the URL path.
 */
module Naming {
  import opened Text

  predicate IsAlphanumeric(c: char) {
    'a' <= c <= 'z' || 'A' <= c <= 'Z' || '0' <= c <= '9'
  }

  /** `title.replace(/[^a-zA-Z0-9]/g, '_')`: every code unit outside the class becomes an underscore. */
  function SanitizeTitle(title: string): (r: string)
    ensures |r| == |title|
    ensures forall i :: 0 <= i < |title| && IsAlphanumeric(title[i]) ==> r[i] == title[i]
    ensures forall i :: 0 <= i < |title| && !IsAlphanumeric(title[i]) ==> r[i] == '_'
  {
    if title == [] then []
    else [if IsAlphanumeric(title[0]) then title[0] else '_'] + SanitizeTitle(title[1..])
  }

  /** The sanitised title holds only letters, digits and underscores. */
  lemma SanitizedIsSafe(title: string)
    ensures forall c :: c in SanitizeTitle(title) ==> IsAlphanumeric(c) || c == '_'
  {
    var r := SanitizeTitle(title);
    forall c | c in r ensures IsAlphanumeric(c) || c == '_' {
      var i :| 0 <= i < |r| && r[i] == c;
    }
  }

  /** Sanitising a sanitised title changes nothing. */
  lemma SanitizeIdempotent(title: string)
    ensures SanitizeTitle(SanitizeTitle(title)) == SanitizeTitle(title)
  {
    var r := SanitizeTitle(title);
    assert forall i :: 0 <= i < |r| ==> SanitizeTitle(r)[i] == r[i];
  }

  /** The `download` name of the link: the sanitised title followed by `.pdf`. */
  function DownloadFileName(title: string): (name: string)
    ensures |name| == |title| + 4
    ensures name[..|title|] == SanitizeTitle(title) && name[|title|..] == ".pdf"
    ensures forall i :: 0 <= i < |title| && IsAlphanumeric(title[i]) ==> name[i] == title[i]
    ensures forall i :: 0 <= i < |title| && !IsAlphanumeric(title[i]) ==> name[i] == '_'
  {
    SanitizeTitle(title) + ".pdf"
  }

  /** `path.substring(path.lastIndexOf('/') + 1)`: the longest suffix of the path without a `/`. */
  function AfterLastSlash(path: string): (name: string)
    ensures forall j :: 0 <= j < |name| ==> name[j] != '/'
    ensures |name| <= |path| && name == path[|path| - |name|..]
    ensures |name| < |path| ==> path[|path| - |name| - 1] == '/'
  {
    var k := LastIndexOf(path, '/');
    path[k + 1..]
  }

  /** The file name of the page, `index.html` when the path ends in `/` (or is empty). */
  function PageFile(path: string): (file: string)
    ensures '/' !in file
  {
    var name := AfterLastSlash(path);
    assert forall c :: c in name ==> c != '/';
    if name == [] then "index.html" else name
  }

  /** The file name is the text after the last `/`, and `index.html` when that text is empty. */
  lemma PageFileFallback(path: string)
    ensures AfterLastSlash(path) == [] ==> PageFile(path) == "index.html"
    ensures AfterLastSlash(path) != [] ==> PageFile(path) == AfterLastSlash(path)
  {
  }

  /** `s.replace(t, '')` with a string pattern: only the first occurrence is removed. */
  function RemoveFirst(s: string, t: string): (r: string)
    ensures IndexOf(s, t) == -1 ==> r == s
    ensures IndexOf(s, t) >= 0 ==> (|r| == |s| - |t| && r == s[..IndexOf(s, t)] + s[IndexOf(s, t) + |t|..])
  {
    var k := IndexOf(s, t);
    if k < 0 then s else s[..k] + s[k + |t|..]
  }

  /** getCurrentPage: the file name of the path, without its first `.html`. */
  function CurrentPage(path: string): (page: string)
    ensures '/' !in page
    ensures IndexOf(PageFile(path), ".html") == -1 ==> page == PageFile(path)
    ensures IndexOf(PageFile(path), ".html") >= 0 ==> |page| == |PageFile(path)| - 5
  {
    var file := PageFile(path);
    var k := IndexOf(file, ".html");
    if k < 0 then file
    else
      RemovalKeepsOut(file, k, 5, '/');
      RemoveFirst(file, ".html")
  }

  /** The page name is the file name with the characters of its first `.html` cut out. */
  lemma CurrentPageCutsFirstHtml(path: string)
    ensures var f := PageFile(path); var k := IndexOf(f, ".html");
      k >= 0 ==> k + 5 <= |f| && CurrentPage(path) == f[..k] + f[k + 5..]
  {
  }

  /** Cutting `n` characters out of `s` at `k` brings in no character that was not there. */
  lemma RemovalKeepsOut(s: string, k: nat, n: nat, c: char)
    requires k + n <= |s| && c !in s
    ensures c !in s[..k] + s[k + n..]
  {
    var r := s[..k] + s[k + n..];
    forall i | 0 <= i < |r| ensures r[i] != c {
      assert r[i] == if i < k then s[i] else s[i + n];
    }
  }

  /** The suffix after the last `/` is any `/`-free suffix that follows a `/`. */
  lemma AfterLastSlashIs(path: string, name: string)
    requires '/' !in name && |name| < |path| && name == path[|path| - |name|..]
    requires path[|path| - |name| - 1] == '/'
    ensures AfterLastSlash(path) == name
  {
  }

  /** A page `base.html` in any directory is named `base`, when `base` has no dot. */
  lemma CurrentPageOfHtmlFile(dir: string, base: string)
    requires base != [] && '/' !in base && '.' !in base
    ensures CurrentPage(dir + "/" + base + ".html") == base
  {
    var path, file := dir + "/" + base + ".html", base + ".html";
    assert path == (dir + "/") + file && path[|path| - |file|..] == file;
    AfterLastSlashIs(path, file);
    assert OccursAt(file, ".html", |base|) by { assert file[|base|..|base| + 5] == ".html"; }
    forall j | 0 <= j < |base| ensures !OccursAt(file, ".html", j) {
      assert file[j] == base[j];
    }
    assert file[..|base|] == base && file[|base| + 5..] == [];
  }

  /** A path ending in `/` names the `index` page. */
  lemma CurrentPageOfDirectory(dir: string)
    ensures CurrentPage(dir + "/") == "index"
  {
    var path := dir + "/";
    assert AfterLastSlash(path) == [];
    var file := "index.html";
    assert OccursAt(file, ".html", 5) by { assert file[5..10] == ".html"; }
    forall j | 0 <= j < 5 ensures !OccursAt(file, ".html", j) {
      assert file[j] != '.';
    }
    assert file[..5] == "index" && file[10..] == [];
  }
}
