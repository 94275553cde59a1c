# redkarma build and dev-server, modelled in Dafny

This project models the two Node scripts behind the redkarma band site.

**scripts/build-shows.mjs** turns `shows.txt` into the show listing of `index.html` and `shows.html`:

- blocks of three or four lines are parsed into show records;
- a bad block stops the run with its 1-based number;
- the records are sorted by date;
- each record is rendered as an indented HTML fragment, with every field escaped;
- the listing is spliced between the `<!-- SHOWS_START -->` and `<!-- SHOWS_END -->` comments of both pages.

**scripts/dev-server.mjs** is the local preview server:

- it picks the preferred port (`PORT` or 8890) and probes upward to 65535 for a free one;
- it watches the tree, skipping `.git/`, `node_modules/` and `.worktrees/`;
- it debounces changes by 75 ms and pushes `data: reload` to every connected event-stream client;
- it routes requests: 400 for no URL, the `/__live_reload` stream, 403 outside the root, 404 or 500 on read errors;
- it serves files with a content type from its table and `Cache-Control: no-store`;
- it injects the live-reload script before the first `</body>` of HTML pages.

## Modules

| module | file | models |
|---|---|---|
| `Wrappers` | `wrappers.dfy` | `Option`, and `Result` for returns and throws |
| `JsStrings` | `jsstrings.dfy` | JavaScript string built-ins the scripts use (see below) |
| `Escape` | `escape.dfy` | `escapeHtml` and its inverse |
| `Shows` | `shows.dfy` | `parseShows`: blocks, line cleaning, date checks, first-error reporting |
| `ShowSort` | `showsort.dfy` | the sort by date string |
| `Render` | `render.dfy` | `renderShow`, the joined listing, and a reader for rendered fragments |
| `Inject` | `inject.dfy` | `injectShows`, both as written and as intended |
| `Build` | `build.dfy` | the top level of the build script, as one function from the three texts to an outcome |
| `Ports` | `ports.dfy` | `parsePreferredPort`, `findAvailablePort` (a loop method), `startServer` with its `catch` |
| `Watcher` | `watcher.dfy` | `shouldIgnorePath` and the `fs.watch` callback's filter |
| `LiveReload` | `livereload.dfy` | `injectLiveReload` |
| `Routing` | `routing.dfy` | request routing, `path.resolve`, the prefix guard, the MIME table, file responses |
| `Reloader` | `reloader.dfy` | the mutable server state (class `DevServer`); `sendReload`, `queueReload`, the request handler, the watcher callback; the debounce as a function of event times |

The JavaScript string built-ins in `JsStrings` are `trim`, `split`, `join`, `indexOf`, `includes`, `startsWith`, `replace` (with `$` patterns), `Number` on digits, `String(n)`, `toLowerCase` and ordinal comparison.

## Model

| member | source | states |
|---|---|---|
| Escape.EscapeHtml | scripts/build-shows.mjs:11-18 | `escapeHtml`; its contract is in the `Escape.EscapeHtml…` rows below |
| Shows.ParseText | scripts/build-shows.mjs:20-57 | `parseShows`; see `Shows.ParseTextBlank`, `Shows.ParseShowsOnePerBlock`, `Shows.FirstFailureReported` |
| Shows.ParseShows | scripts/build-shows.mjs:26-56 | the `map` over the blocks; see `Shows.MapOrThrowSpec`, `Shows.ParseShowsAt` |
| Shows.ParseBlock | scripts/build-shows.mjs:27-55 | the per-block callback; see `Shows.ParseBlockSpec`, `Shows.ParsedRecord` |
| Render.RenderShow | scripts/build-shows.mjs:59-81 | `renderShow`; see `Render.LinesAt`, `Render.RenderShowReadBack`, `Render.RenderShowTags` |
| Render.RenderAll | scripts/build-shows.mjs:102 | the listing joined by blank lines; see `Render.RenderEach`, `Render.RenderAllTags` |
| Inject.InjectShows | scripts/build-shows.mjs:83-97 | `injectShows` with a literal splice; see `Inject.SpliceMissing`, `Inject.SpliceThenRead`, `Inject.SpliceIdempotent` |
| Inject.InjectShowsAsWritten | scripts/build-shows.mjs:83-97 | `injectShows` as written; see `Inject.AsWrittenExpands`, `Inject.AsWrittenAgrees`, `Inject.AsWrittenDropsDollar` |
| Build.Run | scripts/build-shows.mjs:99-107 | the script's top level with the literal splice; see `Build.RunOutcomes`, `Build.RunCount`, `Build.RunWritesListing` |
| Build.RunAsWritten | scripts/build-shows.mjs:99-107 | the top level as written; see `Build.RunAsWrittenOutcomes`, `Build.RunAgreesWithoutDollar` |
| Ports.NumberOf | scripts/dev-server.mjs:37 | `Number(process.env.PORT)`; see `Ports.ParsePreferredPort` and the `Ports.Port…` rows |
| Ports.StartServer | scripts/dev-server.mjs:220-242 | `startServer` and its `catch`; see `Ports.StartServerListens`, `Ports.StartServerExits` |
| Watcher.ShouldIgnorePath | scripts/dev-server.mjs:95-101 | `shouldIgnorePath`; see `Watcher.IgnoredIffUnderDir` |
| Watcher.QueuesReload | scripts/dev-server.mjs:141-154 | the watcher callback's filter; see `Watcher.QueuesReloadIff` |
| Routing.Resolve | scripts/dev-server.mjs:181 | `path.resolve(ROOT, '.' + normalizedPath)`; see `Routing.ResolveFromRoot` |
| Routing.RouteOf | scripts/dev-server.mjs:157-188 | routing with the intended guard; see `Routing.RouteCases`, `Routing.ServedInsideRoot`, `Routing.ForbiddenIff` |
| Routing.RouteAsWritten | scripts/dev-server.mjs:157-188 | routing with `startsWith(ROOT)`; see `Routing.GuardsDiffer`, `Routing.SiblingServedAsWritten` |
| Routing.FileResponse | scripts/dev-server.mjs:190-214 | the `readFile` callback; see `Routing.ResponseStatus`, `Routing.FileBodyMatchesType` |
| JsStrings.Trim | scripts/build-shows.mjs:21-24 | the trimmed text is empty exactly when the input is blank; otherwise it starts and ends with a non-space |
| JsStrings.Split | scripts/dev-server.mjs:164 | `split` on one character yields at least one piece; no piece holds the separator; joining the pieces back gives the input |
| JsStrings.SplitJoin | scripts/dev-server.mjs:146 | splitting undoes joining when no piece holds the separator |
| JsStrings.SplitJoinReplaces | scripts/dev-server.mjs:146 | `split(a).join(b)` replaces every `a` by `b` and leaves every other character in place |
| JsStrings.IndexOf | scripts/dev-server.mjs:116 | the result is an occurrence at or after `from` with none before it; None means there is no occurrence from there on |
| JsStrings.SubstituteLiteral | scripts/dev-server.mjs:117 | a `replace` template without `$` is inserted verbatim |
| JsStrings.NatToString | scripts/build-shows.mjs:61 | `String(day)` is a non-empty digit string without leading zeros whose value is the day |
| JsStrings.LexLeTotal | scripts/build-shows.mjs:100 | the ordinal comparison used for sorting is total |
| JsStrings.LexLeTransitive | scripts/build-shows.mjs:100 | it is transitive |
| JsStrings.LexLeAntisymmetric | scripts/build-shows.mjs:100 | it is antisymmetric |
| JsStrings.LowerAscii | scripts/dev-server.mjs:203 | `toLowerCase` on ASCII: A-Z become a-z and every other character is kept, length unchanged |
| Escape.ReplaceAllAppend | scripts/build-shows.mjs:13-17 | a global one-character replacement distributes over concatenation |
| Escape.EscapeHtmlChar | scripts/build-shows.mjs:11-18 | the five-step chain turns one character into its entity (`&amp;`, `&lt;`, `&gt;`, `&quot;`, `&#39;`) or leaves it alone; doing `&` first means no entity is escaped again |
| Escape.EscapeHtmlCharwise | scripts/build-shows.mjs:11-18 | the chain equals escaping each character on its own |
| Escape.EscapeHtmlAppend | scripts/build-shows.mjs:11-18 | escaping distributes over concatenation |
| Escape.EscapeHtmlRoundTrip | scripts/build-shows.mjs:11-18 | decoding the five entities recovers the input, so escaping loses nothing and never double-escapes |
| Escape.EscapeHtmlNoMarkup | scripts/build-shows.mjs:11-18 | the output has no raw `<`, `>`, `"` or `'` |
| Escape.EscapeHtmlAmpersands | scripts/build-shows.mjs:11-18 | every `&` in the output begins one of the five entities |
| Escape.EscapeHtmlNoNewline | scripts/build-shows.mjs:11-18 | escaping adds no line break |
| Escape.EscapeHtmlOpensNoTag | scripts/build-shows.mjs:11-18 | escaped text contains no `<` at all, so every `<` in it trivially opens a tag |
| Escape.EscapeHtmlExample | scripts/build-shows.mjs:11-18 | a worked example: `O'Brien's <Venue> & Co` becomes `O&#39;Brien&#39;s &lt;Venue&gt; &amp; Co` |
| Shows.GroupBlocks | scripts/build-shows.mjs:26 | splitting at blank-line runs gives non-empty blocks of non-blank lines that hold, in order, every non-blank line |
| Shows.GroupBlocksRun | scripts/build-shows.mjs:26 | a non-empty run of non-blank lines stays one block (blocks are maximal) |
| Shows.GroupBlocksBlank | scripts/build-shows.mjs:26 | a blank line splits the blocks: those of `xs + [blank] + ys` are those of `xs` followed by those of `ys` |
| Shows.CleanLines | scripts/build-shows.mjs:28-31 | `map(trim).filter(Boolean)` keeps no more lines than the block had; each kept line is non-empty and trimmed at both ends |
| Shows.CleanLinesTrimsNonBlank | scripts/build-shows.mjs:28-31 | the kept lines are exactly the block's non-blank lines, in order, each trimmed |
| Shows.ParseTextBlank | scripts/build-shows.mjs:21-24 | a blank text parses to no shows |
| Shows.ParseBlockSpec | scripts/build-shows.mjs:33-55 | a block fails with its 1-based number for a line count outside 3..4, or for a date that is not `dddd-dd-dd` with month 1..12 and day 1..31; otherwise it yields the record of its cleaned lines, with the date's numbers |
| Shows.MapOrThrowSpec | scripts/build-shows.mjs:27-56 | `map` with a throwing callback succeeds exactly when every element is accepted, giving their results in order; otherwise it fails with the first rejected element's error |
| Shows.FirstFailureReported | scripts/build-shows.mjs:27-56 | the error reported is that of the first failing block |
| Shows.ParseShowsOnePerBlock | scripts/build-shows.mjs:27-56 | a successful parse gives one record per block, in block order, each made from its own block |
| Shows.ParseShowsAt | scripts/build-shows.mjs:27-56 | record `k` of a successful parse is what the callback gave for block `k` |
| Shows.ParsedRecord | scripts/build-shows.mjs:37-55 | an accepted block's record holds its first lines unchanged, and the date's year, month and day |
| Shows.ParseShowsBadLineCount | scripts/build-shows.mjs:33-35 | a block with fewer than 3 or more than 4 lines fails the parse with its 1-based number and its line count, when the blocks before it are good |
| Shows.ParseShowsBadDate | scripts/build-shows.mjs:38-45 | a bad date fails the parse with that date and the block's 1-based number, when the blocks before it are good |
| Shows.DateExamples | scripts/build-shows.mjs:38-45 | month 13 and month 0 are rejected; 31 February is accepted, because month lengths are not checked |
| Shows.DateOrderIsChronological | scripts/build-shows.mjs:100 | on parsed records, ordinal order of the date strings is (year, month, day) order, in both directions |
| ShowSort.Insert | scripts/build-shows.mjs:100 | inserting into a date-sorted list keeps it sorted and adds exactly the one record |
| ShowSort.SortByDate | scripts/build-shows.mjs:100 | the result is sorted by date string and is a permutation of the input |
| ShowSort.SortedIsChronological | scripts/build-shows.mjs:100 | on parsed records, a list sorted by date string is in chronological order |
| Render.RenderEach | scripts/build-shows.mjs:102 | `map(renderShow)` renders the `i`-th record at position `i` |
| Render.MonthNumberOf | scripts/build-shows.mjs:9 | the twelve month labels are distinct: the label of month `m` is found at position `m` |
| Render.JoinLines | scripts/build-shows.mjs:66-80 | a fragment is its physical lines joined by newlines; the action entry contributes an empty line and three lines |
| Render.LinesAt | scripts/build-shows.mjs:66-80 | a fragment has 14 lines with a link and 10 without; the date, month, day, venue, location and link lines are at fixed positions |
| Render.LinesAreSingle | scripts/build-shows.mjs:59-81 | with single-line fields and indent, no physical line of a fragment contains a newline |
| Render.RenderShowReadBack | scripts/build-shows.mjs:59-81 | reading a rendered fragment back gives the date, month, day, venue, location and link a visitor sees; the Details action is present exactly when the record has a non-empty link |
| Render.RenderShowTags | scripts/build-shows.mjs:59-81 | in a rendered fragment every `<` opens a tag, so it holds no comment and no marker |
| Render.RenderAllTags | scripts/build-shows.mjs:102 | the same holds for the listing joined with blank lines |
| Inject.Region | scripts/build-shows.mjs:92 | the pattern's match is a span from a start marker to the end of an end marker |
| Inject.RegionIsLeftmostShortest | scripts/build-shows.mjs:92 | the match starts at the leftmost possible position and is the shortest from there (lazy `*?`); there is none exactly when no span exists |
| Inject.SpliceMissing | scripts/build-shows.mjs:88-90 | injection fails exactly when one of the two markers occurs nowhere in the page |
| Inject.SpliceNoMatch | scripts/build-shows.mjs:92-96 | with both markers present but no end marker after the first start marker, the page is written back unchanged |
| Inject.SpliceAt | scripts/build-shows.mjs:92-94 | the matched span is replaced by `start\nlisting\nend` |
| Inject.SpliceKeepsOutside | scripts/build-shows.mjs:92-94 | the text before and after the matched span is kept |
| Inject.SpliceThenRead | scripts/build-shows.mjs:92-94 | after splicing, the markers enclose the listing, framed by one newline on each side |
| Inject.SpliceOverwrites | scripts/build-shows.mjs:92-94 | splicing into a page that was already spliced gives what splicing into the original page gives |
| Inject.SpliceIdempotent | scripts/build-shows.mjs:92-94 | splicing the same listing twice changes nothing the second time |
| Inject.AsWrittenExpands | scripts/build-shows.mjs:92-94 | the source's `replace` stores the listing with its `$` patterns expanded against the match |
| Inject.AsWrittenAgrees | scripts/build-shows.mjs:92-94 | for a listing without `$`, the source's `replace` is the literal splice |
| Inject.AsWrittenDropsDollar | scripts/build-shows.mjs:92-94 | on every page with a listing region, the source stores the listing `$$` as `$` |
| Build.ParsedWellFormed | scripts/build-shows.mjs:20-57 | every record of a successful parse is well formed; there is one per block, and none for a blank text |
| Build.SortedRenderable | scripts/build-shows.mjs:100 | sorting keeps records renderable (month 1..12, date of the parsed shape) |
| Build.ShowsHtml | scripts/build-shows.mjs:100-102 | in the listing every `<` opens a tag |
| Build.ListingOrder | scripts/build-shows.mjs:100-102 | the listing renders every parsed record once, in chronological order |
| Build.RunOutcomes | scripts/build-shows.mjs:99-105 | a parse error writes nothing; a page missing a marker is an error; index.html is written before shows.html is looked at |
| Build.RunCount | scripts/build-shows.mjs:107 | the logged count is the number of blocks, or 0 for a blank text |
| Build.RunWritesListing | scripts/build-shows.mjs:104-105 | on a page where a start marker is followed by an end marker, the written page holds the listing between its markers (a page whose end markers all come before its start marker is written back unchanged, `Inject.SpliceNoMatch`) |
| Build.BuiltPages | scripts/build-shows.mjs:104-105 | a successful run writes each page as the splice of the listing into it |
| Build.RunKeepsOutside | scripts/build-shows.mjs:104-105 | outside the listing region, index.html is written back as it was |
| Build.RunIdempotent | scripts/build-shows.mjs:99-105 | running the build again on the pages it wrote gives the same outcome |
| Build.PageKeepsOutside | scripts/build-shows.mjs:92-94 | a page written by the splice keeps the text before the start marker and after the end marker |
| Build.AsWrittenAcceptsAlike | scripts/build-shows.mjs:88-94 | `$` expansion never changes whether a page is accepted |
| Build.RunAsWrittenOutcomes | scripts/build-shows.mjs:88-105 | the script as written ends with the same kind of outcome and the same count as the literal build |
| Build.RunAgreesWithoutDollar | scripts/build-shows.mjs:92-105 | when the listing holds no `$`, the script as written and the literal build write the same pages |
| Ports.ParsePreferredPort | scripts/dev-server.mjs:36-43 | the port is in 1..65535; an integer override in range is taken; any port other than 8890 came from the override |
| Ports.PortFromDigits | scripts/dev-server.mjs:37-39 | `PORT` written as digits with a value in 1..65535 is used |
| Ports.PortOutOfRange | scripts/dev-server.mjs:38-42 | digits with value 0 or above 65535 fall back to 8890 |
| Ports.PortUnset | scripts/dev-server.mjs:37-42 | without `PORT` the port is 8890, because `Number(undefined)` is NaN |
| Ports.PortWithZeroFraction | scripts/dev-server.mjs:37-39 | `3000.0` is the integer 3000 and is taken |
| Ports.FindAvailablePort | scripts/dev-server.mjs:63-71 | the loop's result is the scan's; it probed `start`, `start+1`, …, all in use but the last, which is the port returned, the one whose probe failed, or 65535 |
| Ports.ScanFinds | scripts/dev-server.mjs:63-67 | the scan returns `p` exactly when `p` is free and every port from the start up to `p` is in use |
| Ports.ScanExhausts | scripts/dev-server.mjs:64-70 | the scan throws "no available ports" exactly when every port from the start to 65535 is in use |
| Ports.ScanFails | scripts/dev-server.mjs:45-66 | a probe error other than EADDRINUSE is passed on from the first port that was not in use |
| Ports.StartServerListens | scripts/dev-server.mjs:220-231 | the server listens on the first free port at or above the preferred one; it logs the "unavailable" notice exactly when that is not the preferred port; it logs the URL last |
| Ports.StartServerPreferred | scripts/dev-server.mjs:220-231 | a free preferred port is used, with only the "running at" line |
| Ports.StartServerExits | scripts/dev-server.mjs:220-242 | start-up exits exactly when no port from the preferred one up is reached free before a probe fails or the range ends |
| Watcher.RelativePath | scripts/dev-server.mjs:146 | the relative path is the file name with each platform separator replaced by `/` |
| Watcher.DirPrefix | scripts/dev-server.mjs:95-101 | starting with `dir/` is the same as having at least two `/`-separated components, the first being `dir` |
| Watcher.IgnoredIffUnderDir | scripts/dev-server.mjs:95-101 | a path is ignored exactly when it has at least two components and the first is `.git`, `node_modules` or `.worktrees` |
| Watcher.IgnoredBelow | scripts/dev-server.mjs:95-101 | `dir/anything` is ignored for each ignored directory `dir` |
| Watcher.NotIgnoredWithoutSlash | scripts/dev-server.mjs:95-101 | a path without `/` is never ignored (e.g. `.gitignore`, or `node_modules` itself) |
| Watcher.PosixPathUnchanged | scripts/dev-server.mjs:146 | on POSIX the file name is used as it is |
| Watcher.WindowsSeparatorTranslated | scripts/dev-server.mjs:146-147 | on Windows `node_modules\…` is ignored like `node_modules/…` |
| Watcher.TopLevelChangeQueues | scripts/dev-server.mjs:141-154 | a change to a top-level file on POSIX queues a reload |
| Watcher.QueuesReloadIff | scripts/dev-server.mjs:141-154 | a notification queues a reload exactly when it is a change or a rename naming a non-empty file whose relative path is a single component or does not begin with an ignored directory |
| LiveReload.SnippetHasNoDollar | scripts/dev-server.mjs:104-117 | neither the snippet nor the `</body>` after it holds `$`, so `replace` inserts them verbatim |
| LiveReload.InjectLiveReload | scripts/dev-server.mjs:103-121 | the page grows by the snippet's length, plus one newline when it has a `</body>` |
| LiveReload.InsertedBeforeClose | scripts/dev-server.mjs:117 | `replace` puts the snippet and a newline just before the first `</body>` |
| LiveReload.InjectPlacesSnippet | scripts/dev-server.mjs:116-120 | with a `</body>`, the snippet and a newline go immediately before the first one and nothing else changes; without one, the snippet is appended |
| LiveReload.InjectIsUndone | scripts/dev-server.mjs:116-118 | cutting the inserted text back out gives the page as read |
| LiveReload.InjectKeepsClose | scripts/dev-server.mjs:117 | the first `</body>` still follows the snippet directly |
| Routing.Normalize | scripts/dev-server.mjs:182 | the dot-segment walk yields clean segments (no empty, `.` or `..` segment) |
| Routing.NormalizeClean | scripts/dev-server.mjs:182 | clean segments are appended as they are |
| Routing.NormalizeKeeps | scripts/dev-server.mjs:182 | without `..`, nothing of the root is popped |
| Routing.SplitPathOf | scripts/dev-server.mjs:182 | splitting a normalised absolute path at `/` gives back its segments |
| Routing.ResolveFromRoot | scripts/dev-server.mjs:182 | `path.resolve(ROOT, rel)` walks the segments of `rel` from the root's |
| Routing.InsideRootIff | scripts/dev-server.mjs:184 | the intended guard (the root itself, or below `root/`) holds exactly when the root's segments begin the path's |
| Routing.QueryStripped | scripts/dev-server.mjs:164 | the query string is dropped before matching |
| Routing.RouteCases | scripts/dev-server.mjs:158-179 | no URL (or an empty one) is a bad request; the stream path, with or without a query, opens the event stream; nothing else does |
| Routing.ServedInsideRoot | scripts/dev-server.mjs:181-188 | under the intended guard, every served path lies under the root |
| Routing.NoDotDotAllowed | scripts/dev-server.mjs:181-188 | a path with no `..` segment is served under either guard |
| Routing.GuardsDiffer | scripts/dev-server.mjs:184 | the guards disagree only on a path whose text starts with the root's but lies outside it; the intended guard forbids it and the written one serves it |
| Routing.SiblingServedAsWritten | scripts/dev-server.mjs:182-186 | `GET /../<root name><suffix>/file` is served outside the root by the guard as written, and forbidden by the intended one |
| Routing.MimeType | scripts/dev-server.mjs:15-31 | the HTML type goes to `.html` and to no other extension; `application/octet-stream` is the type exactly of unlisted extensions |
| Routing.LastIndexOf | scripts/dev-server.mjs:203 | the position of the last occurrence, or None when there is none |
| Routing.ExtName | scripts/dev-server.mjs:203 | the extension is a suffix of the last segment that is empty or starts with `.` and holds no other `.`; it is non-empty exactly when the segment is not `..` and has a `.` after its first character, so it runs from the last `.` |
| Routing.ExtOfLastDot | scripts/dev-server.mjs:203 | when the last `.` of the last segment is not its first character and the segment is not `..`, the extension runs from that `.` to the end |
| Routing.ResponseStatus | scripts/dev-server.mjs:157-214 | 400 exactly for a missing or empty URL; 200 exactly for the stream or a file that was read; 404 exactly when an allowed file read gives ENOENT; 500 exactly for any other read error |
| Routing.ForbiddenIff | scripts/dev-server.mjs:179-188 | a file request is 403 exactly when its resolved segments do not begin with the root's; otherwise that resolved path is read |
| Routing.FileBodyMatchesType | scripts/dev-server.mjs:202-214 | a read file is sent with status 200, `no-store` and a content type; the type is HTML exactly when the body carries the live-reload snippet, and cutting it out gives the file as read; any other type sends the file unchanged |
| Routing.UpperCaseHtml | scripts/dev-server.mjs:203-208 | a served path `dir/page.HTML` gets the HTML type and the live-reload script, because the extension is lower-cased first |
| Reloader.DevServer.constructor | scripts/dev-server.mjs:33-34 | the server starts with no clients and no timer |
| Reloader.DevServer.Connect | scripts/dev-server.mjs:166-174 | the stream client gets `: connected` first and joins the set; nothing else changes |
| Reloader.DevServer.Close | scripts/dev-server.mjs:175-177 | a closed client leaves the set; nothing is written |
| Reloader.DevServer.SendReload | scripts/dev-server.mjs:123-127 | every client in the set gets exactly one reload frame; clients outside it get nothing |
| Reloader.DevServer.QueueReload | scripts/dev-server.mjs:129-138 | any pending timer is replaced by one due 75 ms from now |
| Reloader.DevServer.AdvanceTo | scripts/dev-server.mjs:134-137 | when the clock passes a pending deadline, `sendReload` runs once at that deadline and the timer is cleared; otherwise nothing is sent |
| Reloader.DevServer.OnWatchEvent | scripts/dev-server.mjs:141-154 | a notification that passes the filter queues a reload; any other changes nothing |
| Reloader.DevServer.HandleRequest | scripts/dev-server.mjs:157-188 | the response is the route's; only the stream path adds the client to the set |
| Reloader.Replay | scripts/dev-server.mjs:129-138 | driving the server with a sequence of events gives exactly the debounced send times |
| Reloader.FiredBefore | scripts/dev-server.mjs:129-138 | no reload is sent after the last event |
| Reloader.FiredSpaced | scripts/dev-server.mjs:129-138 | reloads are at least 75 ms apart |
| Reloader.DebouncedSpaced | scripts/dev-server.mjs:129-138 | the same holds once the last timer has fired |
| Reloader.BurstFiresNothing | scripts/dev-server.mjs:129-138 | events less than 75 ms apart send nothing while the burst lasts |
| Reloader.BurstSendsOnce | scripts/dev-server.mjs:129-138 | a burst then sends exactly one reload, 75 ms after its last event |
| Reloader.DebounceExample | scripts/dev-server.mjs:129-138 | changes at 0, 10 and 20 ms give one reload, at 95 ms |
| Reloader.ClosedClientExample | scripts/dev-server.mjs:123-127 | after one of two clients closes, only the other gets the reload frame |

## Left out

- Real I/O is not modelled; its results are inputs:
  - reading and writing files;
  - `fs.watch` notifications;
  - `net.createServer` probes (an oracle `nat -> Probe`);
  - HTTP sockets;
  - `console` output and `process.exit`.
  The build's two page writes are the fields of the `Build.Outcome` value rather than writes in place.
- `openBrowser` is not modelled: it spawns a platform-specific external program.
- `setTimeout` and `clearTimeout` are replaced by an integer millisecond clock that only `AdvanceTo` moves.
- When a timer deadline and a watcher event fall on the same millisecond, the model fires the timer first.
- `shows-filter.js` is not part of this model: it is browser code that compares dates against the wall clock.
- Regular expressions are modelled by their effect:
  - `split(/\n\s*\n/)` is modelled as grouping the `\n`-separated lines into runs of non-blank lines;
  - the date pattern is checked character by character.
- Ports.NumberOf: covers decimal digits with an optional sign and fraction, `Infinity`, blank input and unset input. Exponent, hexadecimal, octal and binary forms are read as NaN, so they fall back to 8890. Fractions are kept exact, not rounded to a double: `PORT=3000.0000000000000001` gives 3000 in JavaScript but falls back to 8890 here, and `PORT=65534.99999999999999999` is read as 65535 by JavaScript but falls back here.
- ShowSort.SortByDate: `localeCompare` is taken as ordinal order on these ASCII dates. Stability of the sort is not stated; records with equal dates may come out in any order.
- The JavaScript text of the injected snippet is an opaque constant. Only its lack of `$` is used, which is what makes `replace` insert it verbatim.
- Routing.Resolve: `path.resolve` is modelled for POSIX paths only. The root is given by its segments.
- JsStrings.LowerAscii: lowers only A-Z, whereas `toLowerCase` also lowers non-ASCII letters (`É` becomes `é`, and `İ` becomes two characters). The difference never reaches a response: the only non-ASCII character that lowers to an ASCII letter is the Kelvin sign (to `k`), and no table extension holds a `k`.
- Ports.StartServer: `server.listen` is assumed to succeed on the port the probe found free. The server has no `'error'` listener, so a port taken between the probe and the listen would raise an unhandled error and end the process outside the `catch`; that path is not modelled.
- Routing.ExtName: `path.extname` is simplified to the text from the last `.` of the last segment. A leading dot and the segment `..` give no extension. A trailing `/` is not stripped, since resolved file paths never end in one.
- Routing.FileResponse: file contents are strings. The UTF-8 decoding of `buffer.toString('utf8')` is not modelled.
- Reloader.DevServer.SendReload: each client has its own log of frames. The order of writes across different clients is not modelled.
- Response objects are modelled as client numbers, so two connections never share one.
- Build.Run: uses the literal splice, not the source's `replace`, which expands `$` patterns in the listing. `Build.RunAsWritten` models the script as written; `Build.RunAsWrittenOutcomes` shows it ends the same way, and `Build.RunAgreesWithoutDollar` shows it writes the same pages whenever the listing holds no `$`.
- Build.RunWritesListing: holds for the literal build; for the script as written only when the listing holds no `$` (a venue `Cash $$ Bar` is stored as `Cash $ Bar`).
- Build.BuiltPages: the pages are the literal splice; for the script as written this holds only when the listing holds no `$`.
- Build.RunKeepsOutside: stated for the literal build; the script as written keeps the outside too, but its listing region differs when the listing holds `$`.
- Build.RunIdempotent: holds for the literal build; for the script as written only when the listing holds no `$` (a listing with `$&` makes the second run differ from the first).
- Reloader.DevServer.HandleRequest: routes with the intended segment-wise guard, not the source's `startsWith` test. Both agree on every request whose path has no `..` segment (`Routing.NoDotDotAllowed`), and `Routing.GuardsDiffer` states the only way they differ.

## Findings

| source | as written | input that shows it | evidently intended | confidence | as-written member | corrected member |
|---|---|---|---|---|---|---|
| scripts/build-shows.mjs:92-94 | `file.replace(pattern, replacement)` passes the listing inside the replacement string. `$$`, `$&`, `` $` `` and `$'` in the listing are expanded (`escapeHtml` leaves `$` alone). | a show whose venue is `Cash $$ Bar`: `index.html` gets `Cash $ Bar` | the listing is written between the markers literally | high; not executed | Inject.AsWrittenDropsDollar | Inject.SpliceThenRead |
| scripts/dev-server.mjs:182-186 | `filePath.startsWith(ROOT)` compares text, not path segments | with the root at `/srv/site`, a raw request for `/../site-private/notes.txt` resolves to `/srv/site-private/notes.txt`, which passes the guard and is served | only the root itself and paths below `ROOT/` are served; everything else is 403 | medium; not executed | Routing.SiblingServedAsWritten | Routing.ServedInsideRoot |

The corrected behaviour is the one the rest of the model uses:

- `Build.Run` splices with `Inject.InjectShows` (the literal splice). `Inject.InjectShowsAsWritten` keeps the source's `replace`.
- `Reloader.DevServer.HandleRequest` routes with `Routing.RouteOf` (the intended guard). `Routing.RouteAsWritten` keeps the prefix test.
