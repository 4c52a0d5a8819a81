/** SimpleWebServer (SimpleWebServer.cs:38-223): the port -> document-root table, the
    addresses the server listens on, and the order in which ProcessRequest decides what a
    request is answered with. Responses are modelled as outcome tags; the bytes sent are
    not part of this model. */
module WebServer {
  import opened Wrappers
  import opened Strings
  import opened Platform
  import Htaccess
  import DirectoryListing

  const StyleSheetName: string := "GomiTestServerStyle.css"
  const IndexName: string := "index.html"
  const LocalHost: string := "http://localhost"
  const MaxPorts: nat := 5
  const InitialPort: int := 8080

  /** What a request is answered with. `ServerError` is the exception an empty request path
      throws outside the handler's try block; `NotFound` is the 404 status the handler sets
      for an unmapped port and for every exception inside the try block.
      `IndexThenNotFound` is the index file being streamed, after which opening the
      directory itself as a file throws and the handler falls into its 404 branch. */
  datatype Outcome =
    | NotFound
    | ServerError
    | Stylesheet(path: string)
    | PhpOutput(path: string)
    | DirectoryPage(page: DirectoryListing.Page)
    | IndexThenNotFound(index: string)
    | FileContent(path: string)

  /** FormatHostUri: "http://localhost:" followed by the port number and a slash. */
  function FormatHostUri(port: int): string
  {
    LocalHost + ":" + IntToString(port) + "/"
  }

  /** The address starts with "http://localhost:", ends with a slash, and the port number
      sits between the two. */
  lemma PortText(port: int)
    ensures var uri := FormatHostUri(port);
      |uri| >= |LocalHost| + 3 &&
      uri[..|LocalHost| + 1] == LocalHost + ":" &&
      uri[|uri| - 1] == '/' &&
      uri[|LocalHost| + 1..|uri| - 1] == IntToString(port)
  {
    SignOf(port);
    var s := IntToString(port);
    assert FormatHostUri(port) == (LocalHost + ":") + s + "/";
  }

  /** Different ports give different addresses. */
  lemma HostUriInjective(p: int, q: int)
    requires FormatHostUri(p) == FormatHostUri(q)
    ensures p == q
  {
    PortText(p);
    PortText(q);
    IntToStringInjective(p, q);
  }

  lemma HostUriDistinct(p: int, q: int)
    requires p != q
    ensures FormatHostUri(p) != FormatHostUri(q)
  {
    if FormatHostUri(p) == FormatHostUri(q) {
      HostUriInjective(p, q);
    }
  }

  /** A non-negative port is read back from its address. */
  lemma HostUriPort(port: nat)
    ensures var uri := FormatHostUri(port);
      var digits := uri[|LocalHost| + 1..|uri| - 1];
      (forall i :: 0 <= i < |digits| ==> '0' <= digits[i] <= '9') && DigitsValue(digits) == port
  {
    PortText(port);
    DigitsRoundTrip(port);
  }

  /** The listening addresses for `count` ports from `first` on, in port order. */
  function HostUris(first: int, count: nat): (urls: seq<string>)
    ensures |urls| == count
  {
    if count == 0 then [] else HostUris(first, count - 1) + [FormatHostUri(first + count - 1)]
  }

  /** The constructor's loop filling the address array; the server runs it with
      InitialPort and MaxPorts. */
  method ListenUris(first: int, count: nat) returns (urls: seq<string>)
    ensures urls == HostUris(first, count)
  {
    urls := [];
    for i := 0 to count
      invariant urls == HostUris(first, i)
    {
      urls := urls + [FormatHostUri(first + i)];
    }
  }

  /** Entry i is the address of port first + i. */
  lemma {:induction false} HostUrisAt(first: int, count: nat, i: nat)
    requires i < count
    ensures HostUris(first, count)[i] == FormatHostUri(first + i)
  {
    var prev := HostUris(first, count - 1);
    var last := FormatHostUri(first + count - 1);
    assert HostUris(first, count) == prev + [last];
    if i < count - 1 {
      HostUrisAt(first, count - 1, i);
      assert (prev + [last])[i] == prev[i];
    } else {
      assert (prev + [last])[i] == last;
    }
  }

  /** The listening addresses are pairwise different. */
  lemma HostUrisDistinct(first: int, count: nat)
    ensures var urls := HostUris(first, count);
      forall i, j :: 0 <= i < j < count ==> urls[i] != urls[j]
  {
    var urls := HostUris(first, count);
    forall i, j | 0 <= i < j < count
      ensures urls[i] != urls[j]
    {
      DistinctAt(first, count, i, j);
    }
  }

  lemma DistinctAt(first: int, count: nat, i: nat, j: nat)
    requires i < j < count
    ensures HostUris(first, count)[i] != HostUris(first, count)[j]
  {
    HostUrisAt(first, count, i);
    HostUrisAt(first, count, j);
    HostUriDistinct(first + i, first + j);
  }

  /** The file a request path names: the path without its leading '/', combined with the
      document root and URL-decoded. */
  function RequestFile(lib: Library, rootDir: string, url: string): string
    requires url != []
  {
    lib.urlDecode(lib.combine(rootDir, url[1..]))
  }

  /** Whether a file is handed to PHP: an executable was found and the extension, lowered,
      is ".php". */
  predicate IsPhp(php: bool, path: string)
  {
    php && Lower(GetExtension(path)) == ".php"
  }

  /** The decision ProcessRequest makes, in its order: port lookup, the reserved
      stylesheet, .htaccess rewriting, PHP, directory (index file or listing), plain file.
      The exceptions inside the try block that the model represents (an invalid rule
      pattern, a listing whose root is longer than the directory, opening a directory as
      a file after its index was streamed) become a 404. The file system is a snapshot in
      which every existing file can be read, so failures of existing files and
      directories (access denied, a locked file) are not represented. */
  function Dispatch(mappings: map<int, string>, php: bool, fs: FileSystem, lib: Library,
                    port: int, url: string): (o: Outcome)
    ensures port !in mappings ==> o == NotFound
    ensures o == ServerError <==> port in mappings && url == []
    ensures o.Stylesheet? ==>
              port in mappings && o.path == lib.combine(mappings[port], StyleSheetName)
    ensures o.PhpOutput? ==> IsPhp(php, o.path)
    ensures o.FileContent? ==>
              fs.FileExists(o.path) && !fs.DirectoryExists(o.path) && !IsPhp(php, o.path)
    ensures o.IndexThenNotFound? ==> fs.FileExists(o.index)
  {
    if port !in mappings then NotFound
    else if url == [] then ServerError
    else
      var rootDir := mappings[port];
      var fileName := RequestFile(lib, rootDir, url);
      if fileName == lib.combine(rootDir, StyleSheetName) then Stylesheet(fileName)
      else
        match Htaccess.Rewritten(Htaccess.Env(fs, lib, rootDir, url, fileName))
        case Failure => NotFound
        case Success(f) => Serve(fs, lib, php, rootDir, f)
  }

  /** Steps 3 to 5 of ProcessRequest, on the file name after rewriting. */
  function Serve(fs: FileSystem, lib: Library, php: bool, rootDir: string, f: string): (o: Outcome)
    ensures o.PhpOutput? ==> IsPhp(php, o.path)
    ensures o.FileContent? ==> fs.FileExists(o.path) && !fs.DirectoryExists(o.path) && !IsPhp(php, o.path)
    ensures o.IndexThenNotFound? ==> fs.FileExists(o.index)
    ensures o != ServerError && !o.Stylesheet?
  {
    if IsPhp(php, f) then PhpOutput(f)
    else if fs.DirectoryExists(f) then
      var index := lib.combine(f, IndexName);
      if fs.FileExists(index) then IndexThenNotFound(index)
      else
        match DirectoryListing.Listing(fs, lib, rootDir, f)
        case Failure => NotFound
        case Success(page) => DirectoryPage(page)
    else if fs.FileExists(f) then FileContent(f)
    else NotFound
  }

  /** The server object: the port table (read by request threads, written by the user
      interface; modelled sequentially) and whether a PHP executable was found. */
  class SimpleWebServer {
    var prefixRootMappings: map<int, string>
    var phpAvailable: bool

    /** The table starts empty; `phpAvailable` is the outcome of the PHP discovery, which
        probes the file system and is not part of this model. */
    constructor(phpAvailable: bool)
      ensures prefixRootMappings == map[]
      ensures this.phpAvailable == phpAvailable
    {
      prefixRootMappings := map[];
      this.phpAvailable := phpAvailable;
    }

    method ClearAllPorts()
      modifies this
      ensures prefixRootMappings == map[]
      ensures phpAvailable == old(phpAvailable)
    {
      prefixRootMappings := map[];
    }

    /** An upsert: the port maps to rootDir afterwards, every other entry is unchanged. */
    method SetPortRootMapping(port: int, rootDir: string)
      modifies this
      ensures prefixRootMappings == old(prefixRootMappings)[port := rootDir]
      ensures port in prefixRootMappings && prefixRootMappings[port] == rootDir
      ensures forall p :: p != port ==>
                (p in prefixRootMappings <==> p in old(prefixRootMappings)) &&
                (p in prefixRootMappings ==> prefixRootMappings[p] == old(prefixRootMappings)[p])
      ensures phpAvailable == old(phpAvailable)
    {
      if port in prefixRootMappings {
        prefixRootMappings := prefixRootMappings[port := rootDir];
      } else {
        prefixRootMappings := prefixRootMappings[port := rootDir];
      }
    }

    /** ProcessRequest: answers a request on `port` for the path `url`. */
    method ProcessRequest(fs: FileSystem, lib: Library, port: int, url: string)
      returns (o: Outcome)
      ensures o == Dispatch(prefixRootMappings, phpAvailable, fs, lib, port, url)
    {
      if port !in prefixRootMappings {
        return NotFound;
      }
      if url == [] {
        return ServerError;
      }
      var rootDir := prefixRootMappings[port];
      var fileName := RequestFile(lib, rootDir, url);

      if fileName == lib.combine(rootDir, StyleSheetName) {
        return Stylesheet(fileName);
      }

      var rewritten := Htaccess.ApplyHtaccess(Htaccess.Env(fs, lib, rootDir, url, fileName));
      if rewritten.Failure? {
        return NotFound;
      }
      fileName := rewritten.value;

      if IsPhp(phpAvailable, fileName) {
        return PhpOutput(fileName);
      }

      if fs.DirectoryExists(fileName) {
        var index := lib.combine(fileName, IndexName);
        if fs.FileExists(index) {
          // The index file is streamed, but there is no return: the open below fails.
          return IndexThenNotFound(index);
        }
        var listing := DirectoryListing.GetDirectoryListing(fs, lib, rootDir, fileName);
        if listing.Failure? {
          return NotFound;
        }
        return DirectoryPage(listing.value);
      }

      if fs.FileExists(fileName) {
        return FileContent(fileName);
      }
      return NotFound;
    }
  }

  /** After ClearAllPorts every request is answered with 404. */
  lemma ClearedTableNotFound(php: bool, fs: FileSystem, lib: Library, port: int, url: string)
    ensures Dispatch(map[], php, fs, lib, port, url) == NotFound
  {
  }

  /** Mapping one port does not change how requests on another port are answered. */
  lemma OtherPortUnaffected(mappings: map<int, string>, php: bool, fs: FileSystem, lib: Library,
                            port: int, rootDir: string, other: int, url: string)
    requires other != port
    ensures Dispatch(mappings[port := rootDir], php, fs, lib, other, url)
         == Dispatch(mappings, php, fs, lib, other, url)
  {
    var m := mappings[port := rootDir];
    assert (other in m) == (other in mappings);
    if other in m {
      assert m[other] == mappings[other];
    }
  }

  /** The reserved stylesheet is answered before .htaccess is read: whatever the file
      system holds (an .htaccess file, a real file of that name), the answer is the same. */
  lemma StylesheetBeforeHtaccess(mappings: map<int, string>, php: bool, fs: FileSystem,
                                 fs': FileSystem, lib: Library, port: int, url: string)
    requires port in mappings && url != []
    requires RequestFile(lib, mappings[port], url) == lib.combine(mappings[port], StyleSheetName)
    ensures Dispatch(mappings, php, fs, lib, port, url)
         == Dispatch(mappings, php, fs', lib, port, url)
         == Stylesheet(lib.combine(mappings[port], StyleSheetName))
  {
  }

  /** Without a PHP executable nothing is handed to PHP. */
  lemma PhpOnlyWhenAvailable(mappings: map<int, string>, fs: FileSystem, lib: Library,
                             port: int, url: string)
    ensures !Dispatch(mappings, false, fs, lib, port, url).PhpOutput?
  {
  }

  /** With one, a rewritten name whose extension is ".php" in any letter case is handed to
      PHP before the directory and file checks. */
  lemma PhpBeforeFiles(fs: FileSystem, lib: Library, rootDir: string, stem: string, ext: string)
    requires forall k :: 0 <= k < |ext| ==> ext[k] != '.' && !IsSeparator(ext[k])
    requires Lower(ext) == "php"
    ensures Serve(fs, lib, true, rootDir, stem + "." + ext) == PhpOutput(stem + "." + ext)
  {
    var f := stem + "." + ext;
    PhpExtension(stem, ext);
    PhpServed(fs, lib, rootDir, f);
  }

  lemma PhpServed(fs: FileSystem, lib: Library, rootDir: string, f: string)
    requires Lower(GetExtension(f)) == ".php"
    ensures Serve(fs, lib, true, rootDir, f) == PhpOutput(f)
  {
  }

  lemma PhpExtension(stem: string, ext: string)
    requires forall k :: 0 <= k < |ext| ==> ext[k] != '.' && !IsSeparator(ext[k])
    requires Lower(ext) == "php"
    ensures Lower(GetExtension(stem + "." + ext)) == ".php"
  {
    ExtensionOfSuffix(stem, ext);
    LowerAfterDot(ext);
  }

  /** A rewrite that throws (an invalid rule pattern) is answered with 404. */
  lemma RewriteFailureNotFound(mappings: map<int, string>, php: bool, fs: FileSystem,
                               lib: Library, port: int, url: string)
    requires port in mappings && url != []
    requires var root := mappings[port];
      var f := RequestFile(lib, root, url);
      f != lib.combine(root, StyleSheetName) &&
      Htaccess.Rewritten(Htaccess.Env(fs, lib, root, url, f)).Failure?
    ensures Dispatch(mappings, php, fs, lib, port, url) == NotFound
  {
  }

  /** A directory holding index.html never gets a listing: the index is streamed and the
      request then ends in the 404 branch. */
  lemma IndexFallsThrough(fs: FileSystem, lib: Library, php: bool, rootDir: string, f: string)
    requires !IsPhp(php, f) && fs.DirectoryExists(f)
    requires fs.FileExists(lib.combine(f, IndexName))
    ensures Serve(fs, lib, php, rootDir, f) == IndexThenNotFound(lib.combine(f, IndexName))
  {
  }

  /** A directory without index.html is answered with its listing; the listing fails (and
      the answer is 404) exactly when the document root is longer than the directory. */
  lemma DirectoryWithoutIndex(fs: FileSystem, lib: Library, php: bool, rootDir: string, f: string)
    requires !IsPhp(php, f) && fs.DirectoryExists(f)
    requires !fs.FileExists(lib.combine(f, IndexName))
    ensures |rootDir| <= |f| ==>
              Serve(fs, lib, php, rootDir, f)
              == DirectoryPage(DirectoryListing.Listing(fs, lib, rootDir, f).value)
    ensures |rootDir| > |f| ==> Serve(fs, lib, php, rootDir, f) == NotFound
  {
    DirectoryListing.ListingFails(fs, lib, rootDir, f);
  }

  /** Without an .htaccess file the request file itself is served: a plain file's content,
      or 404 when there is no such file or directory. */
  lemma NoHtaccessServesRequestFile(mappings: map<int, string>, php: bool, fs: FileSystem,
                                    lib: Library, port: int, url: string)
    requires port in mappings && url != []
    requires var root := mappings[port];
      !fs.FileExists(lib.combine(root, Htaccess.HtaccessFilename)) &&
      RequestFile(lib, root, url) != lib.combine(root, StyleSheetName)
    ensures var f := RequestFile(lib, mappings[port], url);
      Dispatch(mappings, php, fs, lib, port, url) == Serve(fs, lib, php, mappings[port], f)
  {
  }
}
