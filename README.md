# LocalWebServer core in Dafny

This project models the logic of the gomi local web server. The server is a small
Windows tool. It serves one document root per local port (8080 to 8084), and it
remembers the most recently used root folders.

The model covers three parts of the server:

- **Request handling** (`WebServer.dfy`):
  - the port-to-root table and the listen URIs;
  - the order in which `ProcessRequest` decides how to answer a request: unmapped
    port, the built-in stylesheet, `.htaccess` rewriting, PHP, directory (index file
    or listing), then plain file.
- **`.htaccess` rewriting and directory listings**:
  - `HtaccessSyntax.dfy` models the regular expressions that split a line into a
    directive and its operands.
  - `Htaccess.dfy` models the single pass of `ApplyHtaccess` over the file, with its
    five locals kept together as a `RewriteState`.
  - `HtaccessProperties.dfy` proves what that pass does, including the two usual
    front-controller files.
  - `DirectoryListing.dfy` models the page generated for a directory without an
    index file: the parent link, sorted folders, then sorted files with an icon
    chosen by extension.
- **The MRU folder list** (`LruManager.dfy`):
  - loading it from the numbered `LruItem<n>` registry values;
  - `Add`, `CleanUp`, the `MaxLruItems` setter and `Save`.
- **Path shortening for display** (`FolderNameHelper.dfy`): `LimitPath` keeps the
  drive and the first folder, plus as many trailing and leading folders as fit, and
  puts `…` in the middle.

Support modules:

- `Strings.dfy`: split and join, ASCII lower case, decimal digits.
- `Platform.dfy`: the file system and the .NET library calls.
- `Wrappers.dfy`: `Option` and `Result`.

The file system is a value (`FileSystem`): a set of files, a set of directories,
file lines and directory contents. The library functions whose exact behaviour lies
outside the model are fields of a `Library` value, so every property holds for all
of their possible implementations:

- `Path.Combine`;
- `WebUtility.UrlDecode`, `UrlEncode` and `HtmlEncode`;
- `Path.GetFileName`;
- regular-expression matching of rule patterns.

`Path.GetExtension` and `ToLower` are modelled concretely.

Where imperative code changes state, the model is imperative too:

- `SimpleWebServer` and `LruManager` are classes with the source's fields.
- The store of `LruItem<n>` values is the class `LruStore`.
- The loops of `ApplyHtaccess`, `GetDirectoryListing`, `LimitPath`, `CleanUp`,
  `Save` and the constructors are `while`/`for` loops.
- Each method is proved equal to a specification function, or proved to meet the
  properties its source promises.

## Model

| member | source | states |
|---|---|---|
| WebServer.SimpleWebServer.constructor | SimpleWebServer.cs:55-58 | a new server has an empty port-to-root table; PHP availability is fixed at construction |
| WebServer.SimpleWebServer.ClearAllPorts | SimpleWebServer.cs:112-115 | the table becomes empty and nothing else changes |
| WebServer.SimpleWebServer.SetPortRootMapping | SimpleWebServer.cs:119-131 | adding and replacing both leave the table equal to the old one with `port` mapped to `rootDir`; every other port keeps its entry |
| WebServer.SimpleWebServer.ProcessRequest | SimpleWebServer.cs:149-223 | the imperative handler, which calls ApplyHtaccess and GetDirectoryListing, answers exactly as the dispatch order `Dispatch` describes |
| WebServer.Dispatch | SimpleWebServer.cs:152-218 | an unmapped port is answered 404; a server error happens exactly when a mapped port gets an empty path; the stylesheet is served only for the root's stylesheet name; PHP output only for a `.php` file with PHP available; file content only for an existing non-directory, non-PHP file; the index branch only when the index exists |
| WebServer.Serve | SimpleWebServer.cs:184-213 | steps 3 to 5 after rewriting: never a server error and never the stylesheet; every answer satisfies the same guarantees as in Dispatch |
| WebServer.RequestFile | SimpleWebServer.cs:162-166 | definition: the path without its first character, combined with the root, then URL-decoded; used by Dispatch and NoHtaccessServesRequestFile |
| WebServer.IsPhp | SimpleWebServer.cs:184 | definition: an executable was found and the lower-cased extension is `.php`; see PhpServed and PhpBeforeFiles |
| WebServer.PortText | SimpleWebServer.cs:135-138 | every address starts with `http://localhost:`, ends with `/`, and holds exactly the port's decimal text between the two |
| WebServer.FormatHostUri | SimpleWebServer.cs:135-138 | definition: `http://localhost:`, the port's decimal text, `/`; what it guarantees is stated by PortText, HostUriInjective and HostUriPort |
| WebServer.HostUriInjective | SimpleWebServer.cs:135-138 | two ports with the same URI are the same port |
| WebServer.HostUriDistinct | SimpleWebServer.cs:135-138 | different ports get different URIs |
| WebServer.HostUriPort | SimpleWebServer.cs:135-138 | the port number is read back from the digits of its URI |
| WebServer.HostUris | SimpleWebServer.cs:85-90 | the listen-URI list has one entry per port |
| WebServer.ListenUris | SimpleWebServer.cs:85-90 | the constructor's loop fills the URI array with the URIs of consecutive ports |
| WebServer.HostUrisAt | SimpleWebServer.cs:87-90 | entry i is the URI of port first + i |
| WebServer.HostUrisDistinct | SimpleWebServer.cs:85-92 | the URIs handed to the host are pairwise distinct |
| WebServer.ClearedTableNotFound | SimpleWebServer.cs:112-115 | after ClearAllPorts every request on every port is answered 404 |
| WebServer.OtherPortUnaffected | SimpleWebServer.cs:119-131 | mapping one port does not change how any other port answers |
| WebServer.StylesheetBeforeHtaccess | SimpleWebServer.cs:172-181 | a request for the root's stylesheet gets the stylesheet whatever the file system holds, including .htaccess |
| WebServer.PhpOnlyWhenAvailable | SimpleWebServer.cs:183-189 | without a PHP executable nothing is run as PHP |
| WebServer.PhpBeforeFiles | SimpleWebServer.cs:183-189 | with PHP available, a file whose extension is `php` in any letter case is run as PHP, before the directory and file checks |
| WebServer.PhpServed | SimpleWebServer.cs:184-189 | a path whose lower-cased extension is `.php` is run as PHP |
| WebServer.PhpExtension | SimpleWebServer.cs:184 | `stem.ext` with a dot-free, separator-free `ext` has extension `.ext`, so its lower case is `.php` when ext spells php |
| WebServer.RewriteFailureNotFound | SimpleWebServer.cs:181-218 | a rule pattern that throws turns the request into a 404 |
| WebServer.IndexFallsThrough | SimpleWebServer.cs:192-201 | a directory with index.html streams the index and does not return, so it then falls into the plain-file step |
| WebServer.DirectoryWithoutIndex | SimpleWebServer.cs:192-209 | a directory without index.html gets its listing page when it is at least as long as the root (only the lengths are compared, so a directory outside the root also gets one); when it is shorter, Substring throws and the answer is 404 |
| WebServer.NoHtaccessServesRequestFile | SimpleWebServer.cs:162-213 | with no .htaccess file, a request other than the stylesheet is served from the URL-decoded combination of root and path |
| Htaccess.ApplyHtaccess | SimpleWebServer.cs:429-609 | the line loop returns `Rewritten(env)`: the original file name when there is no .htaccess or no line returns, otherwise what the first returning line yields |
| Htaccess.Rewritten | SimpleWebServer.cs:429-609 | definition: the file name when .htaccess is missing or no line returns, otherwise the first returning line's result; its properties are the HtaccessProperties lemmas |
| Htaccess.Run | SimpleWebServer.cs:448-608 | definition: the lines in order, threading the five locals, stopping at the first return; see RunAppend and FirstReturnDecides |
| Htaccess.Step | SimpleWebServer.cs:450-461 | definition: a line that does not match cmdPattern changes nothing, otherwise its directive is applied; see StepFrame |
| Htaccess.Directive | SimpleWebServer.cs:456-602 | definition: comments and unknown directives change nothing; RewriteEngine, RewriteBase, RewriteCond and RewriteRule as in the source's switch; see DirectiveFrame |
| Htaccess.ApplyRule | SimpleWebServer.cs:549-601 | definition: skipped (and the condition cleared) when the engine is off or the condition is false; otherwise fires on a match, fails on an invalid pattern; see FiringRuleTarget |
| Htaccess.Target | SimpleWebServer.cs:595-598 | definition: RelativeTarget combined with the root, URL-decoded |
| Htaccess.ProcessLine | SimpleWebServer.cs:450-602 | one iteration of the loop is the step function `Step` |
| Htaccess.ConditionLine | SimpleWebServer.cs:506-544 | a RewriteCond line updates the condition flags as `ApplyCondition` says |
| Htaccess.RuleLine | SimpleWebServer.cs:549-601 | a RewriteRule line clears the condition flag and fires as `ApplyRule` says |
| Htaccess.RelativeTarget | SimpleWebServer.cs:579-593 | an absolute substitution drops its leading `/`; a relative one is prefixed by RewriteBase, dropping one leading `/` of the result |
| Htaccess.ApplyCondition | SimpleWebServer.cs:510-544 | a condition never changes the engine switch or the base |
| HtaccessProperties.RunAppend | SimpleWebServer.cs:448-608 | running a+b is running a and then, if nothing returned, running b from the state a left |
| HtaccessProperties.FirstReturnDecides | SimpleWebServer.cs:448-608 | the first line that returns decides the result; later lines are never read |
| HtaccessProperties.EngineNotOnStops | SimpleWebServer.cs:465-485 | a RewriteEngine line whose operand is not `on` ends processing with the original file name |
| HtaccessProperties.DirectiveFrame | SimpleWebServer.cs:463-602 | a directive that does not return never switches the engine off; only an accepted `RewriteEngine on` switches it on; only RewriteBase changes the base; with the engine off no condition gets set |
| HtaccessProperties.StepFrame | SimpleWebServer.cs:450-602 | the same guarantees for a whole line, including comments and lines that do not match |
| HtaccessProperties.EngineNeverOn | SimpleWebServer.cs:498-555 | a file in which no line switches the engine on either returns the original file name or ends with the engine still off |
| HtaccessProperties.EngineOffReturnsFilename | SimpleWebServer.cs:473-555 | while the engine is off, the only possible return is the original file name |
| HtaccessProperties.NoEngineNoRewrite | SimpleWebServer.cs:429-609 | ApplyHtaccess returns the file name unchanged when no line switches the engine on |
| HtaccessProperties.NoHtaccessNoRewrite | SimpleWebServer.cs:431-436 | no .htaccess file means no rewriting |
| HtaccessProperties.RuleClearsCondition | SimpleWebServer.cs:551-557 | every RewriteRule line that does not return clears the pending condition and keeps the rest |
| HtaccessProperties.FalseConditionSkipsRule | SimpleWebServer.cs:551-555 | a false pending condition skips the next rule and is consumed by it |
| HtaccessProperties.OtherConditionIgnored | SimpleWebServer.cs:517 | conditions other than `%{REQUEST_FILENAME} -f` change nothing |
| HtaccessProperties.TwoConditions | SimpleWebServer.cs:526-543 | two file-exists conditions combine with AND, or with OR when the first carries the OR flag |
| HtaccessProperties.FiringRuleTarget | SimpleWebServer.cs:558-598 | an enabled rule returns the decoded target when its pattern matches (or, negated, does not), continues otherwise, and fails when the pattern is invalid |
| HtaccessProperties.EngineOnLine | SimpleWebServer.cs:465-478 | the line `RewriteEngine on` switches the engine on |
| HtaccessProperties.CatchAllRule | SimpleWebServer.cs:549-598 | `RewriteRule ^(.*)$ sub` fires on a matching URL with the engine on and no false condition |
| HtaccessProperties.MissingFileCondition | SimpleWebServer.cs:498-544 | `RewriteCond %{REQUEST_FILENAME} !-f` sets the condition to "the requested file does not exist" |
| HtaccessProperties.IndexPhpExample | SimpleWebServer.cs:429-609 | a .htaccess of `RewriteEngine on` and `RewriteRule ^(.*)$ /index.php` sends every request to the root's index.php |
| HtaccessProperties.FallbackExample | SimpleWebServer.cs:429-609 | with the missing-file condition in between, existing files are served as they are and every other request goes to fallback.html |
| HtaccessSyntax.ParseCommand | SimpleWebServer.cs:417-461 | a matched line has a directive name without spaces and non-empty operands |
| HtaccessSyntax.CommandParams | SimpleWebServer.cs:417 | a result keeps the given name and has non-empty operands |
| HtaccessSyntax.CommandSound | SimpleWebServer.cs:417 | a parsed line is exactly leading spaces, the name, at least one space and the operands |
| HtaccessSyntax.CommandComplete | SimpleWebServer.cs:417 | every line of that shape matches; when the operands do not start with a space, name and operands are recovered exactly |
| HtaccessSyntax.DirectiveLine | SimpleWebServer.cs:417 | `name params` parses back to that name and those operands |
| HtaccessSyntax.CommandAfterSpaces | SimpleWebServer.cs:417 | leading spaces do not change how a line parses |
| HtaccessSyntax.EngineSwitch | SimpleWebServer.cs:467-482 | the operand is accepted exactly when, without trailing spaces and ignoring case, it is `on` or `off`; it switches the engine on exactly for `on` |
| HtaccessSyntax.ParseWordTail | SimpleWebServer.cs:424-427 | a parsed tail starts with a space-free word; WordTailRoundTrip gives the converse |
| HtaccessSyntax.ParseCondition | SimpleWebServer.cs:424 | a matched RewriteCond operand has a space-free test string and condition; ConditionRoundTrip gives the converse |
| HtaccessSyntax.ParseRule | SimpleWebServer.cs:427 | a matched RewriteRule operand has a space-free pattern and substitution; RuleRoundTrip gives the converse |
| HtaccessSyntax.WordTailRoundTrip | SimpleWebServer.cs:424-427 | a word, optionally followed by spaces and a bracketed option list, parses back to that word and those options |
| HtaccessSyntax.ConditionRoundTrip | SimpleWebServer.cs:424 | a RewriteCond operand built from a test string, an optional `!`, a condition and options parses back to exactly those parts |
| HtaccessSyntax.RuleRoundTrip | SimpleWebServer.cs:427 | a RewriteRule operand built from an optional `!`, a pattern, a substitution and options parses back to exactly those parts |
| HtaccessSyntax.RuleAfterBang | SimpleWebServer.cs:427 | the optional `!` is recognised in front of the pattern |
| HtaccessSyntax.OptionFlags | SimpleWebServer.cs:513 | splitting the option list at commas and spaces, dropping empty entries, yields non-empty flags without spaces |
| DirectoryListing.UrlEncode | SimpleWebServer.cs:379-384 | the encoded link never contains `%2F` |
| DirectoryListing.UrlEncodeKeepsPlainOutput | SimpleWebServer.cs:379-384 | when WebUtility.UrlEncode produced no `%2F`, UrlEncode returns its result unchanged |
| DirectoryListing.ParentPath | SimpleWebServer.cs:268-274 | the loop builds `/` followed by every non-empty segment but the last, each with a trailing `/` |
| DirectoryListing.ParentOf | SimpleWebServer.cs:266-274 | definition: `/` followed by every non-empty segment but the last, each with `/`; see ParentSegments and ParentThenLast |
| DirectoryListing.AllButLast | SimpleWebServer.cs:269-274 | the loop over s[0..n-2] yields `/s0/s1/.../` |
| DirectoryListing.ParentSegments | SimpleWebServer.cs:266-274 | the parent link has as its segments the non-empty segments of the relative path, minus the last |
| DirectoryListing.ParentThenLast | SimpleWebServer.cs:266-274 | the parent link, then the last segment and `/`, gives `/` followed by every segment of the relative path, each ending in `/` |
| DirectoryListing.LessEqTotal | SimpleWebServer.cs:290-312 | the ordinal order used for sorting is total |
| DirectoryListing.LessEqAntisymmetric | SimpleWebServer.cs:290-312 | and antisymmetric |
| DirectoryListing.LessEqTransitive | SimpleWebServer.cs:290-312 | and transitive |
| DirectoryListing.SortStrings | SimpleWebServer.cs:290-312 | Array.Sort returns a sorted permutation of its input |
| DirectoryListing.SortPair | SimpleWebServer.cs:290-312 | two names out of order are swapped |
| DirectoryListing.IconClass | SimpleWebServer.cs:327-351 | html/htm give the HTML icon, css the CSS icon, the seven image extensions the image icon, and everything else, exactly, the generic file icon |
| DirectoryListing.ExtensionKey | SimpleWebServer.cs:318-323 | definition: the lower-cased extension without its dot, empty when there is none; see IconOfExtension |
| DirectoryListing.IconOfExtension | SimpleWebServer.cs:318-323 | the icon key of `stem.e` is e in lower case, so the icon does not depend on the letter case of the extension |
| DirectoryListing.FileIconIsNoFolder | SimpleWebServer.cs:327-351 | a file never shows the folder or back icon |
| DirectoryListing.GetDirectoryListing | SimpleWebServer.cs:243-375 | the imperative page builder returns `Listing`: it fails when the directory is shorter than the root, and otherwise yields the HTML-encoded heading, the parent row, folder rows and file rows |
| DirectoryListing.Listing | SimpleWebServer.cs:243-375 | definition: Failure when the root is longer than the directory, otherwise the encoded heading and the parent, folder and file rows; see ListingFails, ListingShape, ListingOrder, ListingLinks |
| DirectoryListing.FolderRow | SimpleWebServer.cs:293-309 | definition: the folder icon, the encoded name plus `/` as link, the HTML-encoded name as text |
| DirectoryListing.FileRow | SimpleWebServer.cs:314-365 | definition: the icon of the extension, the encoded name as link, the HTML-encoded name as text |
| DirectoryListing.AddFolderRows | SimpleWebServer.cs:293-309 | the folder loop appends one row per sorted directory, in order |
| DirectoryListing.AddFileRows | SimpleWebServer.cs:314-365 | the file loop appends one row per sorted file, in order |
| DirectoryListing.ListingFails | SimpleWebServer.cs:264 | the listing fails exactly when the root is longer than the directory, because Substring throws |
| DirectoryListing.ListingShape | SimpleWebServer.cs:264-365 | for a directory at least as long as the root: one `..` row exactly when the directory is longer than the root, then as many folder rows as directories, then as many file rows as files, and no file row carries a folder or back icon |
| DirectoryListing.ListingLinks | SimpleWebServer.cs:283-359 | no link on the page contains an encoded slash |
| DirectoryListing.ListingOrder | SimpleWebServer.cs:290-365 | folder rows follow the sorted directories and file rows the sorted files, each a permutation of what the file system returned |
| DirectoryListing.ListingExample | SimpleWebServer.cs:290-365 | directories b, a and files z.txt, a.png are listed as a, b, a.png (image icon), z.txt (file icon) |
| Lru.LruStore.GetLruItem | AppEnv.cs:35-40 | a value is returned exactly for an existing slot, and it is that slot's value |
| Lru.LruStore.SetLruItem | AppEnv.cs:42-45 | the slot is set to the value and every other slot is unchanged |
| Lru.LruStore.RemoveLruItem | AppEnv.cs:49-54 | the slot is deleted; deleting a missing value fails (the registry throws) and changes nothing |
| Lru.LoadedItems | LruManager.cs:57-71 | the loaded list is the first min(k, 10) consecutive non-empty slots |
| Lru.LruManager.constructor | LruManager.cs:53-72 | loading stops at the first missing or empty slot; maxReadLruItems is the number of slots read; at most 10 are kept, in slot order; nothing is marked modified |
| Lru.LruManager.SetMaxLruItems | LruManager.cs:84-97 | a non-positive value is rejected without change; otherwise the maximum is set and the list is truncated to it |
| Lru.LruManager.Add | LruManager.cs:102-137 | the new list is `Touch(old, item, max)`; the list is marked modified exactly when it changed; the manager's invariant is kept |
| Lru.IndexOf | LruManager.cs:104 | the first index holding the item, or -1 exactly when it is absent |
| Lru.RemoveAt | LruManager.cs:114 | List.RemoveAt: the list is one entry shorter |
| Lru.RemoveAtEntries | LruManager.cs:114 | List.RemoveAt keeps the entries before i and shifts the later ones down by one |
| Lru.Touch | LruManager.cs:102-137 | definition of the list after Add; its properties are the Touch lemmas below |
| Lru.TouchPutsFirst | LruManager.cs:102-137 | after Add the item is the first entry |
| Lru.TouchFirstIsNoop | LruManager.cs:104-109 | adding the current first item changes nothing |
| Lru.TouchMovesExisting | LruManager.cs:111-136 | adding a later item moves it to the front, keeping the others in order and the same multiset |
| Lru.TouchInsertsNew | LruManager.cs:116-136 | a new item is put first and the oldest one is dropped when the list is full |
| Lru.TouchBounded | LruManager.cs:116-124 | the list never grows beyond the maximum |
| Lru.TouchNoDuplicates | LruManager.cs:102-137 | a duplicate-free list stays duplicate-free |
| Lru.LruManager.CleanUp | LruManager.cs:141-158 | the new list is the old one without the matching items, in order; it is marked modified exactly when some item matched |
| Lru.Kept | LruManager.cs:141-158 | the list after CleanUp is never longer than before; KeptMembers says which items remain |
| Lru.MatchedEmpty | LruManager.cs:145-152 | nothing is collected for removal exactly when no item matches |
| Lru.KeptMembers | LruManager.cs:141-158 | an item remains after CleanUp exactly when it was present and does not match |
| Lru.KeptAllWhenNoneMatch | LruManager.cs:141-158 | when nothing matches, the list is unchanged |
| Lru.RemoveNextMatched | LruManager.cs:154-157 | after k removals, removing the first occurrence of the next collected item gives the list after k + 1 removals |
| Lru.DropAllMatched | LruManager.cs:154-157 | removing all collected items leaves exactly the non-matching entries |
| Lru.LruManager.Save | LruManager.cs:162-180 | an unmodified list writes nothing; otherwise items go to slots 1..n, and the stale slots n+1..maxRead are deleted; Save fails (the registry throws) exactly when one of them is missing |
| Lru.SavedSlots | LruManager.cs:169-179 | after a successful Save, slots 1..n hold the list, slots n+1..maxRead are gone and the rest are untouched |
| Lru.SaveThenLoad | LruManager.cs:53-180 | saving a list of at most 10 non-empty items and loading again gives back the same list |
| FolderNameHelper.LimitPath | FoldernameHelper.cs:36-98 | a path shorter than the limit, or of at most three segments, is returned unchanged; otherwise the result is the first two segments, `…` replacing a run of interior segments, and the rest; it fits the limit whenever some interior segment was kept, and neither end of the elided run would have fitted back in |
| FolderNameHelper.AlternateSides | FoldernameHelper.cs:50-78 | the first loop adds on the right first, then alternately left and right, keeps within the limit, and stops only when the sides meet or the next segment does not fit |
| FolderNameHelper.FillOneSide | FoldernameHelper.cs:80-95 | the second loop keeps adding on the other side while segments fit, never crossing the blocked side |
| FolderNameHelper.ElidedIsReplacement | FoldernameHelper.cs:43-97 | the shortened path is the original with segments a..b replaced by `…` |
| FolderNameHelper.ElidedKeepsEnds | FoldernameHelper.cs:50-97 | the shortened path starts with the drive and first folder and ends with the last segment |
| Strings.JoinSplit | FoldernameHelper.cs:43 | splitting at `\` and joining back gives the original path |
| Strings.NoEncodedSlashLeft | SimpleWebServer.cs:382 | after replacing `%2F` by `/` no `%2F` is left |
| Strings.ReplaceIdentity | SimpleWebServer.cs:382 | a string without `%2F` is unchanged by the replacement |
| Strings.LowerIdempotent | SimpleWebServer.cs:318-323 | lower-casing twice is lower-casing once |
| Strings.DigitsRoundTrip | SimpleWebServer.cs:137 | the decimal text of a port reads back as that number |
| Strings.IntToStringInjective | SimpleWebServer.cs:137 | different numbers have different decimal texts |
| Platform.GetExtension | SimpleWebServer.cs:318-323 | the extension is empty or a dotted suffix of the path, with no further dot or separator |
| Platform.ExtensionOfSuffix | SimpleWebServer.cs:318-323 | `stem.e` has extension `.e` when e holds no dot or separator |
| Platform.TrailingDotNoExtension | SimpleWebServer.cs:318-323 | a path ending in `.` has no extension |

## Left out

- Hosting and response output (SimpleWebServer.cs:59-101, 140-145, 225-239): the
  ASP.NET web application, its start and stop, and writing status codes and bodies.
  A request's answer is the `Outcome` value instead.
- PHP discovery and `ExecutePhp` (SimpleWebServer.cs:60-82, 388-412): finding
  php.exe and running it as a child process. Whether an executable was found is the
  constructor's `phpAvailable` parameter; the PHP answer is `PhpOutput(path)`.
- `AddPort` (SimpleWebServer.cs:105-107) has an empty body, so there is nothing to
  model.
- WebServer.SimpleWebServer.constructor: the URL array handed to the host is
  modelled separately, as `ListenUris(InitialPort, MaxPorts)`. The constructor
  itself only sets up the table.
- WebServer.Dispatch: an empty request path is modelled as `ServerError`. The
  handler's `Substring(1)` sits before its try block, so the host would see the
  exception; ASP.NET itself always supplies a path starting with `/`.
- WebServer.Dispatch: `IndexThenNotFound(index)` stands for streaming the index
  file and then throwing on the directory. What the client receives in that case
  depends on the host.
- WebServer.Dispatch: the stylesheet resource stream (`GetResourceStream`) and the
  file-streaming details are not modelled.
- Regular-expression semantics of rule patterns: `Library.regexMatch` is an oracle.
  It returns `None` when the pattern is invalid and the Regex constructor throws.
  The fixed patterns `cmdPattern`, `enginePattern`, `basePattern`, `condPattern`
  and `rulePattern` are modelled exactly.
- `Path.Combine`, `WebUtility.UrlDecode`, `UrlEncode`, `HtmlEncode` and
  `Path.GetFileName` are uninterpreted fields of `Library`, so every property holds
  for any implementation.
- Culture-sensitive string operations are modelled as ordinal:
  - DirectoryListing.SortStrings uses ordinal order. `Array.Sort` on strings uses
    the current culture's comparer.
  - Strings.Lower uses ASCII lower case. `ToLower` is culture-sensitive.
- FolderNameHelper.LimitPath: string lengths are counted in Unicode scalar values
  (Dafny `char`). C# `Length` counts UTF-16 code units, so a character above U+FFFF
  counts twice in the source and once here. For example, `C:\x\y\` followed by
  U+1F600 has length 9 in the source, which is not below a limit of 9, so the source
  shortens it to `C:\x\…\` plus that character. The model sees length 8 and
  returns the path unchanged.
- DirectoryListing.Listing: the `Substring(rootDir.Length)` offset and the
  root-longer-than-directory failure are counted in scalar values, not UTF-16 code
  units.
- DirectoryListing.SortStrings: ordinal order is taken over scalar values. Where
  characters above U+FFFF meet characters in U+E000..U+FFFF, this order differs from
  an ordinal UTF-16 comparison, in addition to the culture difference above.
- Htaccess.Directive: a directive counts as a comment when its first character is
  `#`. The source's `command.StartsWith("#")` is a culture-sensitive comparison,
  which also accepts `#` after characters the culture ignores; the model does not.
- WebServer.Dispatch and DirectoryListing.Listing: the file system is a total
  snapshot, so I/O failures of files and directories that exist are not modelled. In
  the source, opening an unreadable or locked file (SimpleWebServer.cs lines 199 and
  212) or `Directory.GetDirectories`/`GetFiles` failing (for example access denied)
  throws, and the handler answers 404. The model answers `FileContent` or
  `DirectoryPage` for such inputs.
- Reading .htaccess: `FileSystem.ReadLines` gives the lines. Stream encoding and
  line-ending detection are not modelled.
- The page's fixed HTML markup: the page is its heading and its rows.
- The `NC`/`nocase` condition flag is parsed but unused in the source, and is not
  modelled.
- Registry access (AppEnv.cs) is the `LruStore` map. `LruItem<n>` key naming and
  registry I/O errors other than deleting a missing value are not modelled.
- Lru.LruManager.CleanUp: the source sets `isModified` inside the first loop. The
  model sets it once after that loop, when something matched; the resulting state
  is the same.
- The singleton accessor, the read-only `LruItems` view, the UI classes, view
  models, theme settings and the folder text block (FolderTextBlock.cs, which calls
  LimitPath) are not part of this model.
- Concurrency: requests handled in parallel share only the port table, and the
  model treats each request on its own.
