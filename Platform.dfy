/** What the web server sees of its platform: a file system snapshot and the .NET library
    functions whose exact behaviour is outside the model (Path.Combine, WebUtility.UrlDecode,
    WebUtility.UrlEncode, WebUtility.HtmlEncode, Path.GetFileName and the regular-expression
    engine), plus Path.GetExtension, which is modelled exactly. */
module Platform {
  import opened Wrappers

  /** A snapshot of the file system. `lines` holds the text lines of files the server reads
      (the .htaccess files); `subdirs` and `filesIn` list a directory's entries as full paths,
      in enumeration order. */
  datatype FileSystem = FileSystem(
    files: set<string>,
    dirs: set<string>,
    lines: map<string, seq<string>>,
    subdirs: map<string, seq<string>>,
    filesIn: map<string, seq<string>>)
  {
    function FileExists(path: string): bool { path in files }
    function DirectoryExists(path: string): bool { path in dirs }

    function ReadLines(path: string): seq<string>
    {
      if path in lines then lines[path] else []
    }

    function GetDirectories(path: string): seq<string>
    {
      if path in subdirs then subdirs[path] else []
    }

    function GetFiles(path: string): seq<string>
    {
      if path in filesIn then filesIn[path] else []
    }
  }

  /** Library functions the model treats as given. `regexMatch(pattern, input)` is None when
      `pattern` is not a valid regular expression (the Regex constructor throws). */
  datatype Library = Library(
    combine: (string, string) -> string,
    urlDecode: string -> string,
    urlEncode: string -> string,
    htmlEncode: string -> string,
    getFileName: string -> string,
    regexMatch: (string, string) -> Option<bool>)

  predicate IsSeparator(ch: char)
  {
    ch == '\\' || ch == '/'
  }

  /** Path.GetExtension: scans back from the end; a '.' that is not the last character
      starts the extension, a directory separator ends the search. */
  function GetExtension(path: string): (ext: string)
    ensures ext != [] ==> 2 <= |ext| <= |path| && ext[0] == '.' && ext == path[|path| - |ext|..]
    ensures forall k :: 1 <= k < |ext| ==> ext[k] != '.' && !IsSeparator(ext[k])
  {
    ExtensionBefore(path, |path|)
  }

  /** The extension found when scanning positions i-1, i-2, ..., 0, the positions from i on
      having been passed over already. */
  function ExtensionBefore(path: string, i: nat): (ext: string)
    requires i <= |path|
    requires forall k :: i <= k < |path| ==> path[k] != '.' && !IsSeparator(path[k])
    ensures ext != [] ==> 2 <= |ext| <= |path| && ext[0] == '.' && ext == path[|path| - |ext|..]
    ensures forall k :: 1 <= k < |ext| ==> ext[k] != '.' && !IsSeparator(ext[k])
  {
    if i == 0 then []
    else if path[i - 1] == '.' then (if i != |path| then path[i - 1..] else [])
    else if IsSeparator(path[i - 1]) then []
    else ExtensionBefore(path, i - 1)
  }

  /** A final component "stem.e" with a non-empty e free of dots and separators has the
      extension ".e". */
  lemma ExtensionOfSuffix(stem: string, e: string)
    requires e != [] && forall k :: 0 <= k < |e| ==> e[k] != '.' && !IsSeparator(e[k])
    ensures GetExtension(stem + "." + e) == "." + e
  {
    var path := stem + "." + e;
    var lo := |stem| + 1;
    assert path[lo - 1] == '.' && path[lo - 1..] == "." + e;
    assert forall k :: lo <= k < |path| ==> path[k] == e[k - lo];
    ScanSkips(path, lo, |path|);
  }

  /** Scanning back over characters that are neither dots nor separators finds the same
      extension as scanning from where they start. */
  lemma {:induction false} ScanSkips(path: string, lo: nat, i: nat)
    requires lo <= i <= |path|
    requires forall k :: lo <= k < |path| ==> path[k] != '.' && !IsSeparator(path[k])
    ensures ExtensionBefore(path, i) == ExtensionBefore(path, lo)
    decreases i
  {
    if i > lo {
      ScanSkips(path, lo, i - 1);
    }
  }

  /** A path ending in '.' has no extension. */
  lemma TrailingDotNoExtension(path: string)
    requires path != [] && path[|path| - 1] == '.'
    ensures GetExtension(path) == []
  {
  }
}
