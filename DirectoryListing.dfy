/** GetDirectoryListing and UrlEncode (SimpleWebServer.cs:243-384): the HTML page listing a
    directory that has no index file. The page is modelled as its heading and its table
    rows; the fixed markup around them is left out. */
module DirectoryListing {
  import opened Wrappers
  import opened Strings
  import opened Platform

  const BackIcon: string := "ico_back"
  const FolderIcon: string := "ico_folder"
  const HtmlIcon: string := "ico_html"
  const CssIcon: string := "ico_css"
  const ImageIcon: string := "ico_img"
  const FileIcon: string := "ico_file"

  /** One table row: the icon class, the link target and the link text. */
  datatype Row = Row(icon: string, href: string, text: string)

  /** The page: the HTML-encoded directory as heading, then the rows. */
  datatype Page = Page(heading: string, rows: seq<Row>)

  // ---------------------------------------------------------------------------------
  // UrlEncode

  /** WebUtility.UrlEncode with every "%2F" turned back into '/'. */
  function UrlEncode(lib: Library, url: string): (e: string)
    ensures !Contains(e, "%2F")
  {
    NoEncodedSlashLeft(lib.urlEncode(url));
    ReplaceEncodedSlash(lib.urlEncode(url))
  }

  /** When the encoder produces no "%2F", UrlEncode is the encoder itself. */
  lemma UrlEncodeKeepsPlainOutput(lib: Library, url: string)
    requires !Contains(lib.urlEncode(url), "%2F")
    ensures UrlEncode(lib, url) == lib.urlEncode(url)
  {
    ReplaceIdentity(lib.urlEncode(url));
  }

  // ---------------------------------------------------------------------------------
  // The ".." link

  /** Each segment followed by '/'. */
  function Slashed(segs: seq<string>): string
  {
    if segs == [] then [] else segs[0] + "/" + Slashed(segs[1..])
  }

  lemma {:induction false} SlashedAppend(segs: seq<string>, s: string)
    ensures Slashed(segs + [s]) == Slashed(segs) + s + "/"
    decreases |segs|
  {
    if segs == [] {
      assert Slashed([s]) == s + "/" + Slashed([]);
    } else {
      assert (segs + [s])[1..] == segs[1..] + [s];
      SlashedAppend(segs[1..], s);
    }
  }

  /** The parent of `root`, the directory with its first |rootDir| characters cut off:
      '/' and every segment but the last, each
      followed by '/'; empty segments are dropped. */
  function ParentOf(root: string): string
  {
    var segs := NonEmptySegments(root, '/');
    "/" + Slashed(if segs == [] then [] else segs[..|segs| - 1])
  }

  /** The loop that builds the parent link. */
  method ParentPath(root: string) returns (parent: string)
    ensures parent == ParentOf(root)
  {
    var s := NonEmptySegments(root, '/');
    parent := AllButLast(s);
  }

  /** '/' and every segment but the last, each followed by '/'. */
  method AllButLast(s: seq<string>) returns (parent: string)
    ensures parent == "/" + Slashed(if s == [] then [] else s[..|s| - 1])
  {
    parent := "/";
    var n := if s == [] then 0 else |s| - 1;
    for i := 0 to n
      invariant parent == "/" + Slashed(s[..i])
    {
      SlashedAppend(s[..i], s[i]);
      assert s[..i + 1] == s[..i] + [s[i]];
      parent := parent + s[i] + "/";
    }
  }

  /** Splitting after a separator-free segment and a separator. */
  lemma {:induction false} SplitAfterSegment(x: string, y: string, c: char)
    requires c !in x
    ensures Split(x + [c] + y, c) == [x] + Split(y, c)
    decreases |x|
  {
    if x == [] {
      assert x + [c] + y == [c] + y;
      assert ([c] + y)[1..] == y;
    } else {
      var s := x + [c] + y;
      assert s[0] == x[0] && s[1..] == x[1..] + [c] + y;
      SplitAfterSegment(x[1..], y, c);
      assert [x[0]] + x[1..] == x;
    }
  }

  lemma {:induction false} SplitSlashed(segs: seq<string>)
    requires forall i :: 0 <= i < |segs| ==> '/' !in segs[i]
    ensures Split(Slashed(segs), '/') == segs + [[]]
    decreases |segs|
  {
    if segs != [] {
      SplitSlashed(segs[1..]);
      SplitAfterSegment(segs[0], Slashed(segs[1..]), '/');
      assert segs[0] + "/" + Slashed(segs[1..]) == segs[0] + ['/'] + Slashed(segs[1..]);
      assert [segs[0]] + (segs[1..] + [[]]) == segs + [[]];
    }
  }

  lemma {:induction false} RemoveEmptyKeeps(parts: seq<string>)
    requires forall i :: 0 <= i < |parts| ==> parts[i] != []
    ensures RemoveEmpty(parts + [[]]) == parts
    decreases |parts|
  {
    if parts == [] {
      assert RemoveEmpty([[]]) == RemoveEmpty([]);
    } else {
      assert (parts + [[]])[0] == parts[0];
      assert (parts + [[]])[1..] == parts[1..] + [[]];
      RemoveEmptyKeeps(parts[1..]);
    }
  }

  /** Going to the parent drops exactly the last segment of that relative path. */
  lemma ParentSegments(root: string)
    ensures var segs := NonEmptySegments(root, '/');
      NonEmptySegments(ParentOf(root), '/') == (if segs == [] then [] else segs[..|segs| - 1])
  {
    var segs := NonEmptySegments(root, '/');
    var kept := if segs == [] then [] else segs[..|segs| - 1];
    var t := Slashed(kept);
    SplitSlashed(kept);
    assert ("/" + t)[0] == '/' && ("/" + t)[1..] == t;
    assert Split("/" + t, '/') == [[]] + (kept + [[]]);
    RemoveEmptyKeeps(kept);
    assert RemoveEmpty([[]] + (kept + [[]])) == RemoveEmpty(kept + [[]]);
  }

  /** The parent link starts and ends with '/', and the parent followed by the last
      segment is the whole relative path, written with single slashes. */
  lemma ParentThenLast(root: string)
    requires NonEmptySegments(root, '/') != []
    ensures var segs := NonEmptySegments(root, '/');
      ParentOf(root) + segs[|segs| - 1] + "/" == "/" + Slashed(segs)
  {
    var segs := NonEmptySegments(root, '/');
    SlashedAppend(segs[..|segs| - 1], segs[|segs| - 1]);
    assert segs[..|segs| - 1] + [segs[|segs| - 1]] == segs;
  }

  // ---------------------------------------------------------------------------------
  // Array.Sort, modelled as ordinal order

  /** Ordinal order: character by character, a proper prefix first. */
  predicate LessEq(a: string, b: string)
  {
    a == [] || (b != [] && (a[0] < b[0] || (a[0] == b[0] && LessEq(a[1..], b[1..]))))
  }

  lemma {:induction false} LessEqTotal(a: string, b: string)
    ensures LessEq(a, b) || LessEq(b, a)
  {
    if a != [] && b != [] && a[0] == b[0] {
      LessEqTotal(a[1..], b[1..]);
    }
  }

  lemma {:induction false} LessEqAntisymmetric(a: string, b: string)
    requires LessEq(a, b) && LessEq(b, a)
    ensures a == b
  {
    if a != [] && b != [] {
      LessEqAntisymmetric(a[1..], b[1..]);
      assert a == [a[0]] + a[1..] && b == [b[0]] + b[1..];
    }
  }

  lemma {:induction false} LessEqTransitive(a: string, b: string, c: string)
    requires LessEq(a, b) && LessEq(b, c)
    ensures LessEq(a, c)
  {
    if a != [] && b != [] && c != [] && a[0] == b[0] && b[0] == c[0] {
      LessEqTransitive(a[1..], b[1..], c[1..]);
    }
  }

  /** A common prefix does not change the order. */
  lemma {:induction false} LessEqCommonPrefix(p: string, a: string, b: string)
    ensures LessEq(p + a, p + b) == LessEq(a, b)
  {
    if p != [] {
      assert (p + a)[1..] == p[1..] + a && (p + b)[1..] == p[1..] + b;
      LessEqCommonPrefix(p[1..], a, b);
    } else {
      assert p + a == a && p + b == b;
    }
  }

  predicate Sorted(s: seq<string>)
  {
    forall i :: 0 < i < |s| ==> LessEq(s[i - 1], s[i])
  }

  /** x put into its place in a sorted sequence. */
  function Insert(x: string, s: seq<string>): (r: seq<string>)
    requires Sorted(s)
    ensures Sorted(r) && multiset(r) == multiset(s) + multiset{x}
    ensures r[0] == x || (s != [] && r[0] == s[0])
  {
    if s == [] then [x]
    else if LessEq(x, s[0]) then [x] + s
    else
      LessEqTotal(x, s[0]);
      var t := Insert(x, s[1..]);
      assert s == [s[0]] + s[1..];
      [s[0]] + t
  }

  /** The names in ordinal order: sorted, and a permutation of the input. */
  function SortStrings(s: seq<string>): (r: seq<string>)
    ensures Sorted(r) && multiset(r) == multiset(s)
  {
    if s == [] then []
    else
      assert s == [s[0]] + s[1..];
      Insert(s[0], SortStrings(s[1..]))
  }

  /** Two names in the wrong order are swapped. */
  lemma SortPair(x: string, y: string)
    requires !LessEq(x, y)
    ensures SortStrings([x, y]) == [y, x]
  {
    assert [x, y][1..] == [y];
    assert [y][1..] == [];
  }

  // ---------------------------------------------------------------------------------
  // Icons

  /** The extension, lower-cased, without its dot ("" when there is none). */
  function ExtensionKey(file: string): string
  {
    var ext := Lower(GetExtension(file));
    if ext == [] then [] else ext[1..]
  }

  /** The icon class of a file by its extension key. */
  function IconClass(key: string): (cls: string)
    ensures cls == HtmlIcon <==> key in {"html", "htm"}
    ensures cls == CssIcon <==> key == "css"
    ensures cls == ImageIcon <==> key in {"svg", "jpg", "tif", "tiff", "dng", "png", "bmp"}
    ensures cls == FileIcon <==> !(key in {"html", "htm", "css", "svg", "jpg", "tif", "tiff", "dng", "png", "bmp"})
  {
    if key == "html" || key == "htm" then HtmlIcon
    else if key == "css" then CssIcon
    else if key in {"svg", "jpg", "tif", "tiff", "dng", "png", "bmp"} then ImageIcon
    else FileIcon
  }

  /** A file "stem.e" (e free of dots and separators) gets the icon of e lower-cased, so
      the icon does not depend on the case of the extension. */
  lemma IconOfExtension(stem: string, e: string)
    requires e != [] && forall k :: 0 <= k < |e| ==> e[k] != '.' && !IsSeparator(e[k])
    ensures ExtensionKey(stem + "." + e) == Lower(e)
    ensures IconClass(ExtensionKey(stem + "." + e)) == IconClass(ExtensionKey(stem + "." + Lower(e)))
  {
    KeyOfSuffix(stem, e);
    LowerKeepsPlain(e);
    KeyOfSuffix(stem, Lower(e));
    LowerIdempotent(e);
  }

  lemma KeyOfSuffix(stem: string, e: string)
    requires e != [] && forall k :: 0 <= k < |e| ==> e[k] != '.' && !IsSeparator(e[k])
    ensures ExtensionKey(stem + "." + e) == Lower(e)
  {
    ExtensionOfSuffix(stem, e);
    LowerAfterDot(e);
  }

  /** Lower-casing keeps a text free of dots and separators. */
  lemma LowerKeepsPlain(e: string)
    requires forall k :: 0 <= k < |e| ==> e[k] != '.' && !IsSeparator(e[k])
    ensures forall k :: 0 <= k < |Lower(e)| ==> Lower(e)[k] != '.' && !IsSeparator(Lower(e)[k])
  {
  }

  /** The icon class is never the folder or the back icon. */
  lemma FileIconIsNoFolder(key: string)
    ensures IconClass(key) != FolderIcon && IconClass(key) != BackIcon
  {
  }

  // ---------------------------------------------------------------------------------
  // Rows and page

  function ParentRows(lib: Library, root: string): seq<Row>
  {
    if root == [] then [] else [Row(BackIcon, UrlEncode(lib, ParentOf(root)), "..")]
  }

  function FolderRow(lib: Library, dir: string): Row
  {
    var name := lib.getFileName(dir);
    Row(FolderIcon, UrlEncode(lib, name) + "/", lib.htmlEncode(name))
  }

  /** The icon class of a file. */
  function FileIconOf(file: string): string
  {
    IconClass(ExtensionKey(file))
  }

  function FileRow(lib: Library, file: string): Row
  {
    var name := lib.getFileName(file);
    Row(FileIconOf(file), UrlEncode(lib, name), lib.htmlEncode(name))
  }

  function FolderRows(lib: Library, dirs: seq<string>): (rows: seq<Row>)
    ensures |rows| == |dirs|
  {
    seq(|dirs|, i requires 0 <= i < |dirs| => FolderRow(lib, dirs[i]))
  }

  function FileRows(lib: Library, files: seq<string>): (rows: seq<Row>)
    ensures |rows| == |files|
  {
    seq(|files|, i requires 0 <= i < |files| => FileRow(lib, files[i]))
  }

  /** The listing page; Failure when the root is longer than the directory (Substring
      throws). */
  function Listing(fs: FileSystem, lib: Library, rootDir: string, directory: string): Result<Page>
  {
    if |rootDir| > |directory| then Failure
    else
      var root := directory[|rootDir|..];
      Success(Page(lib.htmlEncode(directory),
                   ParentRows(lib, root) +
                   FolderRows(lib, SortStrings(fs.GetDirectories(directory))) +
                   FileRows(lib, SortStrings(fs.GetFiles(directory)))))
  }

  /** GetDirectoryListing: the ".." row, then a loop over the sorted directories, then a
      loop over the sorted files. */
  method GetDirectoryListing(fs: FileSystem, lib: Library, rootDir: string, directory: string)
    returns (r: Result<Page>)
    ensures r == Listing(fs, lib, rootDir, directory)
  {
    if |rootDir| > |directory| {
      return Failure;
    }
    var root := directory[|rootDir|..];
    var rows: seq<Row> := [];
    if root != [] {
      var parent := ParentPath(root);
      rows := [Row(BackIcon, UrlEncode(lib, parent), "..")];
    }
    var dirs := SortStrings(fs.GetDirectories(directory));
    rows := AddFolderRows(lib, rows, dirs);
    var files := SortStrings(fs.GetFiles(directory));
    rows := AddFileRows(lib, rows, files);
    return Success(Page(lib.htmlEncode(directory), rows));
  }

  lemma FolderRowsAppend(lib: Library, dirs: seq<string>, i: nat)
    requires i < |dirs|
    ensures FolderRows(lib, dirs[..i + 1]) == FolderRows(lib, dirs[..i]) + [FolderRow(lib, dirs[i])]
  {
  }

  lemma FileRowsAppend(lib: Library, files: seq<string>, i: nat)
    requires i < |files|
    ensures FileRows(lib, files[..i + 1]) == FileRows(lib, files[..i]) + [FileRow(lib, files[i])]
  {
    var a := FileRows(lib, files[..i + 1]);
    var b := FileRows(lib, files[..i]) + [FileRow(lib, files[i])];
    forall k | 0 <= k < |a|
      ensures a[k] == b[k]
    {
      FileRowsAppendAt(lib, files, i, k);
    }
  }

  lemma FileRowsAppendAt(lib: Library, files: seq<string>, i: nat, k: nat)
    requires k <= i < |files|
    ensures FileRows(lib, files[..i + 1])[k] == (FileRows(lib, files[..i]) + [FileRow(lib, files[i])])[k]
  {
    assert files[..i + 1][k] == files[k];
    if k < i {
      assert files[..i][k] == files[k];
    }
  }

  /** The loop over the subdirectories. */
  method AddFolderRows(lib: Library, head: seq<Row>, dirs: seq<string>) returns (rows: seq<Row>)
    ensures rows == head + FolderRows(lib, dirs)
  {
    rows := head;
    for i := 0 to |dirs|
      invariant rows == head + FolderRows(lib, dirs[..i])
    {
      var name := lib.getFileName(dirs[i]);
      var url := UrlEncode(lib, name) + "/";
      rows := rows + [Row(FolderIcon, url, lib.htmlEncode(name))];
      FolderRowsAppend(lib, dirs, i);
    }
    assert dirs[..|dirs|] == dirs;
  }

  /** The loop over the files. */
  method AddFileRows(lib: Library, head: seq<Row>, files: seq<string>) returns (rows: seq<Row>)
    ensures rows == head + FileRows(lib, files)
  {
    rows := head;
    for i := 0 to |files|
      invariant rows == head + FileRows(lib, files[..i])
    {
      var name := lib.getFileName(files[i]);
      var url := UrlEncode(lib, name);
      rows := rows + [Row(FileIconOf(files[i]), url, lib.htmlEncode(name))];
      FileRowsAppend(lib, files, i);
    }
    assert files[..|files|] == files;
  }

  // ---------------------------------------------------------------------------------
  // Properties of the page

  /** The listing fails exactly when the root is longer than the directory. */
  lemma ListingFails(fs: FileSystem, lib: Library, rootDir: string, directory: string)
    ensures Listing(fs, lib, rootDir, directory).Failure? <==> |rootDir| > |directory|
  {
  }

  /** Sorting keeps the number of entries. */
  lemma SortKeepsLength(s: seq<string>)
    ensures |SortStrings(s)| == |s|
  {
    assert |multiset(SortStrings(s))| == |multiset(s)|;
  }

  /** When the directory is at least as long as the root (only the lengths are compared,
      so a directory outside the root qualifies too), the page has a ".." row first exactly
      when the directory is longer than the root, then one row per subdirectory, then one
      row per file. */
  lemma ListingShape(fs: FileSystem, lib: Library, rootDir: string, directory: string)
    requires |rootDir| <= |directory|
    ensures var rows := Listing(fs, lib, rootDir, directory).value.rows;
      var p := if |rootDir| < |directory| then 1 else 0;
      var nd := |fs.GetDirectories(directory)|;
      |rows| == p + nd + |fs.GetFiles(directory)| &&
      (p == 1 ==> rows[0].icon == BackIcon && rows[0].text == "..") &&
      (forall k :: p <= k < p + nd ==> rows[k].icon == FolderIcon) &&
      (forall k :: p + nd <= k < |rows| ==> rows[k].icon != BackIcon && rows[k].icon != FolderIcon)
  {
    var root := directory[|rootDir|..];
    var dirs := SortStrings(fs.GetDirectories(directory));
    var files := SortStrings(fs.GetFiles(directory));
    SortKeepsLength(fs.GetDirectories(directory));
    SortKeepsLength(fs.GetFiles(directory));
    var pr := ParentRows(lib, root);
    var fr := FolderRows(lib, dirs);
    var fi := FileRows(lib, files);
    FolderIcons(lib, dirs);
    FileIcons(lib, files);
    RowsShape(pr, fr, fi);
  }

  lemma FolderIcons(lib: Library, dirs: seq<string>)
    ensures forall k :: 0 <= k < |dirs| ==> FolderRows(lib, dirs)[k].icon == FolderIcon
  {
  }

  lemma FileIcons(lib: Library, files: seq<string>)
    ensures forall k :: 0 <= k < |files| ==>
              FileRows(lib, files)[k].icon != BackIcon && FileRows(lib, files)[k].icon != FolderIcon
  {
    forall k | 0 <= k < |files|
      ensures FileRows(lib, files)[k].icon != BackIcon && FileRows(lib, files)[k].icon != FolderIcon
    {
      FileIconIsNoFolder(ExtensionKey(files[k]));
      assert FileRows(lib, files)[k].icon == IconClass(ExtensionKey(files[k]));
    }
  }

  lemma RowsShape(pr: seq<Row>, fr: seq<Row>, fi: seq<Row>)
    requires forall k :: 0 <= k < |fr| ==> fr[k].icon == FolderIcon
    requires forall k :: 0 <= k < |fi| ==> fi[k].icon != BackIcon && fi[k].icon != FolderIcon
    ensures var rows := pr + fr + fi;
      (forall k :: |pr| <= k < |pr| + |fr| ==> rows[k].icon == FolderIcon) &&
      (forall k :: |pr| + |fr| <= k < |rows| ==> rows[k].icon != BackIcon && rows[k].icon != FolderIcon)
  {
    var rows := pr + fr + fi;
    forall k | |pr| <= k < |pr| + |fr|
      ensures rows[k].icon == FolderIcon
    {
      assert rows[k] == fr[k - |pr|];
    }
    forall k | |pr| + |fr| <= k < |rows|
      ensures rows[k].icon != BackIcon && rows[k].icon != FolderIcon
    {
      assert rows[k] == fi[k - |pr| - |fr|];
    }
  }

  /** A trailing '/' cannot complete a "%2F". */
  lemma AppendSlashKeepsFree(e: string)
    requires !Contains(e, "%2F")
    ensures !Contains(e + "/", "%2F")
  {
    var t := e + "/";
    forall i | 0 <= i <= |t|
      ensures !ContainsAt(t, i, "%2F")
    {
      if i + 3 <= |e| {
        assert t[i..i + 3] == e[i..i + 3];
        assert !ContainsAt(e, i, "%2F");
      } else if i + 3 == |t| {
        assert t[i + 2] == '/';
      }
    }
  }

  /** No link in these rows contains "%2F". */
  predicate LinksFree(rows: seq<Row>)
  {
    forall k :: 0 <= k < |rows| ==> !Contains(rows[k].href, "%2F")
  }

  lemma LinksFreeConcat(a: seq<Row>, b: seq<Row>)
    requires LinksFree(a) && LinksFree(b)
    ensures LinksFree(a + b)
  {
    forall k | 0 <= k < |a + b|
      ensures !Contains((a + b)[k].href, "%2F")
    {
      if k < |a| {
        assert (a + b)[k] == a[k];
      } else {
        assert (a + b)[k] == b[k - |a|];
      }
    }
  }

  lemma FolderLinksFree(lib: Library, dirs: seq<string>)
    ensures LinksFree(FolderRows(lib, dirs))
  {
    var fr := FolderRows(lib, dirs);
    forall k | 0 <= k < |fr|
      ensures !Contains(fr[k].href, "%2F")
    {
      AppendSlashKeepsFree(UrlEncode(lib, lib.getFileName(dirs[k])));
    }
  }

  lemma FileLinksFree(lib: Library, files: seq<string>)
    ensures LinksFree(FileRows(lib, files))
  {
    var fi := FileRows(lib, files);
    forall k | 0 <= k < |fi|
      ensures !Contains(fi[k].href, "%2F")
    {
      assert fi[k].href == UrlEncode(lib, lib.getFileName(files[k]));
    }
  }

  /** No link on the page contains "%2F". */
  lemma ListingLinks(fs: FileSystem, lib: Library, rootDir: string, directory: string)
    requires |rootDir| <= |directory|
    ensures LinksFree(Listing(fs, lib, rootDir, directory).value.rows)
  {
    var pr := ParentRows(lib, directory[|rootDir|..]);
    var fr := FolderRows(lib, SortStrings(fs.GetDirectories(directory)));
    var fi := FileRows(lib, SortStrings(fs.GetFiles(directory)));
    assert LinksFree(pr);
    FolderLinksFree(lib, SortStrings(fs.GetDirectories(directory)));
    FileLinksFree(lib, SortStrings(fs.GetFiles(directory)));
    LinksFreeConcat(fr, fi);
    LinksFreeConcat(pr, fr + fi);
    ListingRows(fs, lib, rootDir, directory);
  }

  /** Subdirectories and files each appear in ordinal order of their full paths. */
  lemma ListingOrder(fs: FileSystem, lib: Library, rootDir: string, directory: string)
    requires |rootDir| <= |directory|
    ensures var rows := Listing(fs, lib, rootDir, directory).value.rows;
      var p := if |rootDir| < |directory| then 1 else 0;
      var dirs := SortStrings(fs.GetDirectories(directory));
      var files := SortStrings(fs.GetFiles(directory));
      Sorted(dirs) && Sorted(files) &&
      multiset(dirs) == multiset(fs.GetDirectories(directory)) &&
      multiset(files) == multiset(fs.GetFiles(directory)) &&
      rows[p..p + |dirs|] == FolderRows(lib, dirs) &&
      rows[p + |dirs|..] == FileRows(lib, files)
  {
    var root := directory[|rootDir|..];
    var dirs := SortStrings(fs.GetDirectories(directory));
    var files := SortStrings(fs.GetFiles(directory));
    var pr := ParentRows(lib, root);
    var rows := Listing(fs, lib, rootDir, directory).value.rows;
    assert rows == pr + FolderRows(lib, dirs) + FileRows(lib, files);
  }

  /** Subdirectories b, a and files z.txt, a.png of one directory (full paths sharing the
      prefix p): folders a, b, then a.png with the image icon, then z.txt with the generic
      file icon. */
  lemma ListingExample(fs: FileSystem, lib: Library, rootDir: string, directory: string, p: string)
    requires |rootDir| <= |directory|
    requires fs.GetDirectories(directory) == [p + "b", p + "a"]
    requires fs.GetFiles(directory) == [p + "z.txt", p + "a.png"]
    ensures var rows := Listing(fs, lib, rootDir, directory).value.rows;
      var k := if |rootDir| < |directory| then 1 else 0;
      rows[k..] == [FolderRow(lib, p + "a"), FolderRow(lib, p + "b"),
                    FileRow(lib, p + "a.png"), FileRow(lib, p + "z.txt")]
    ensures FileIconOf(p + "a.png") == ImageIcon && FileIconOf(p + "z.txt") == FileIcon
  {
    ExampleOrder(p);
    var a, b, c, d := p + "a", p + "b", p + "a.png", p + "z.txt";
    SortedListingRows(fs, lib, rootDir, directory, [a, b], [c, d]);
    TwoRows(lib, a, b, c, d);
    PngIcon(p + "a");
    TxtIcon(p + "z");
    ExampleNames(p);
  }

  /** A directory whose sorted sub-directories are ds and sorted files are xs lists
      their rows, in that order, after the optional ".." row. */
  lemma SortedListingRows(fs: FileSystem, lib: Library, rootDir: string, directory: string,
                          ds: seq<string>, xs: seq<string>)
    requires |rootDir| <= |directory|
    requires SortStrings(fs.GetDirectories(directory)) == ds
    requires SortStrings(fs.GetFiles(directory)) == xs
    ensures var rows := Listing(fs, lib, rootDir, directory).value.rows;
      var k := if |rootDir| < |directory| then 1 else 0;
      rows[k..] == FolderRows(lib, ds) + FileRows(lib, xs)
  {
    var pr := ParentRows(lib, directory[|rootDir|..]);
    var rest := FolderRows(lib, ds) + FileRows(lib, xs);
    ListingRows(fs, lib, rootDir, directory);
    ParentRowCount(lib, rootDir, directory);
    DropHead(pr, rest);
  }

  /** The rows of a listing: the ".." row, the folder rows, the file rows. */
  lemma ListingRows(fs: FileSystem, lib: Library, rootDir: string, directory: string)
    requires |rootDir| <= |directory|
    ensures Listing(fs, lib, rootDir, directory).value.rows ==
        ParentRows(lib, directory[|rootDir|..]) +
        (FolderRows(lib, SortStrings(fs.GetDirectories(directory))) +
         FileRows(lib, SortStrings(fs.GetFiles(directory))))
  {
    var ds := FolderRows(lib, SortStrings(fs.GetDirectories(directory)));
    var xs := FileRows(lib, SortStrings(fs.GetFiles(directory)));
    ConcatAssoc(ParentRows(lib, directory[|rootDir|..]), ds, xs);
  }

  lemma ConcatAssoc(a: seq<Row>, b: seq<Row>, c: seq<Row>)
    ensures a + b + c == a + (b + c)
  {
  }

  /** There is one ".." row exactly when the directory is longer than the root. */
  lemma ParentRowCount(lib: Library, rootDir: string, directory: string)
    requires |rootDir| <= |directory|
    ensures |ParentRows(lib, directory[|rootDir|..])| == if |rootDir| < |directory| then 1 else 0
  {
  }

  lemma DropHead(pr: seq<Row>, rest: seq<Row>)
    ensures (pr + rest)[|pr|..] == rest
  {
  }

  lemma TwoRows(lib: Library, a: string, b: string, c: string, d: string)
    ensures FolderRows(lib, [a, b]) == [FolderRow(lib, a), FolderRow(lib, b)]
    ensures FileRows(lib, [c, d]) == [FileRow(lib, c), FileRow(lib, d)]
  {
  }

  lemma ExampleNames(p: string)
    ensures p + "a.png" == p + "a" + "." + "png" && p + "z.txt" == p + "z" + "." + "txt"
  {
  }

  lemma ExampleOrder(p: string)
    ensures SortStrings([p + "b", p + "a"]) == [p + "a", p + "b"]
    ensures SortStrings([p + "z.txt", p + "a.png"]) == [p + "a.png", p + "z.txt"]
  {
    LessEqCommonPrefix(p, "b", "a");
    LessEqCommonPrefix(p, "z.txt", "a.png");
    SortPair(p + "b", p + "a");
    SortPair(p + "z.txt", p + "a.png");
  }

  lemma PngIcon(stem: string)
    ensures FileIconOf(stem + "." + "png") == ImageIcon
  {
    KeyOfSuffix(stem, "png");
    PngKey();
  }

  lemma PngKey()
    ensures Lower("png") == "png" && IconClass("png") == ImageIcon
  {
    var e := "png";
    assert Lower(e) == e;
  }

  lemma TxtIcon(stem: string)
    ensures FileIconOf(stem + "." + "txt") == FileIcon
  {
    KeyOfSuffix(stem, "txt");
    TxtKey();
  }

  lemma TxtKey()
    ensures Lower("txt") == "txt" && IconClass("txt") == FileIcon
  {
    var e := "txt";
    assert Lower(e) == e;
  }
}
