/**
 * The request handling of scripts/dev-server.mjs: which route a URL takes,
 * how the file path is resolved and guarded, and the response a file read
 * produces (status, headers, body).
 *
 * `path.resolve` is modelled on POSIX as a dot-segment normaliser over `/`;
 * the site root is given by its segments. Reading a file is an input.
 */
module Routing {
  import opened Wrappers
  import opened JsStrings
  import opened LiveReload

  // ---------------------------------------------------------------------
  // Paths
  // ---------------------------------------------------------------------

  /** A segment a normalised absolute path can hold. */
  predicate CleanSegment(s: string) {
    s != "" && s != "." && s != ".." && '/' !in s
  }

  predicate Clean(segs: seq<string>) {
    forall i :: 0 <= i < |segs| ==> CleanSegment(segs[i])
  }

  /** The absolute path with these segments. */
  function PathOf(segs: seq<string>): string {
    "/" + Join(segs, "/")
  }

  /** One step of `normalizeString`: skip empty and `.`, pop on `..` (never above `/`), else push. */
  function Step(acc: seq<string>, s: string): seq<string> {
    if s == "" || s == "." then acc
    else if s == ".." then (if acc == [] then [] else acc[..|acc| - 1])
    else acc + [s]
  }

  /** The segments left after walking `segs` from `acc`. */
  function Normalize(acc: seq<string>, segs: seq<string>): (r: seq<string>)
    requires Clean(acc) && forall i :: 0 <= i < |segs| ==> '/' !in segs[i]
    ensures Clean(r)
    decreases |segs|
  {
    if segs == [] then acc else Normalize(Step(acc, segs[0]), segs[1..])
  }

  /** `path.resolve(root, rel)` for a relative `rel`. */
  function Resolve(root: seq<string>, rel: string): (r: string)
    requires Clean(root)
  {
    PathOf(Normalize([], Split(PathOf(root) + "/" + rel, '/')))
  }

  // ---------------------------------------------------------------------
  // Routes
  // ---------------------------------------------------------------------

  /** The route a request takes before any file is read. */
  datatype Route =
    | BadRequest
    | EventStream
    | Forbidden
    | ServeFile(path: string)

  /** `req.url.split('?')[0]`. */
  function RequestPath(url: string): string {
    Split(url, '?')[0]
  }

  /** `/` is served as `/index.html`. */
  function NormalizedPath(requestPath: string): string {
    if requestPath == "/" then "/index.html" else requestPath
  }

  /** `filePath.startsWith(ROOT)`, the guard as written. */
  predicate PrefixGuard(filePath: string, root: seq<string>) {
    StartsWith(filePath, PathOf(root))
  }

  /** The guard as intended: the root itself or a path below it. */
  predicate InsideRoot(filePath: string, root: seq<string>) {
    filePath == PathOf(root) || StartsWith(filePath, if root == [] then "/" else PathOf(root) + "/")
  }

  /** The routing part of the request handler, with a given guard. */
  function RouteWith(url: Option<string>, root: seq<string>, asWritten: bool): Route
    requires Clean(root)
  {
    if url.None? || url.value == "" then BadRequest
    else
      var requestPath := RequestPath(url.value);
      if requestPath == StreamPath then EventStream
      else
        var filePath := Resolve(root, "." + NormalizedPath(requestPath));
        var allowed := if asWritten then PrefixGuard(filePath, root) else InsideRoot(filePath, root);
        if allowed then ServeFile(filePath) else Forbidden
  }

  /** Routing as the handler is written. */
  function RouteAsWritten(url: Option<string>, root: seq<string>): Route
    requires Clean(root)
  {
    RouteWith(url, root, true)
  }

  /** Routing with the guard it is meant to be. */
  function RouteOf(url: Option<string>, root: seq<string>): Route
    requires Clean(root)
  {
    RouteWith(url, root, false)
  }

  // ---------------------------------------------------------------------
  // File responses
  // ---------------------------------------------------------------------

  /** What `fs.readFile` calls back with. */
  datatype ReadResult =
    | Contents(data: string)
    | ReadError(code: string)

  datatype Response = Response(status: nat, headers: seq<(string, string)>, body: string)

  const EventStreamHeaders: seq<(string, string)> :=
    [("Cache-Control", "no-cache"), ("Connection", "keep-alive"), ("Content-Type", "text/event-stream")]

  /** The first frame on a new event stream: an event-stream comment line. */
  const ConnectedFrame: string := ": connected\n\n"

  /** `MIME_TYPES`. */
  const MimeTypes: map<string, string> := map[
    ".css" := "text/css; charset=utf-8",
    ".gif" := "image/gif",
    ".html" := "text/html; charset=utf-8",
    ".ico" := "image/x-icon",
    ".jpeg" := "image/jpeg",
    ".jpg" := "image/jpeg",
    ".js" := "application/javascript; charset=utf-8",
    ".json" := "application/json; charset=utf-8",
    ".mjs" := "application/javascript; charset=utf-8",
    ".otf" := "font/otf",
    ".png" := "image/png",
    ".svg" := "image/svg+xml",
    ".ttf" := "font/ttf",
    ".txt" := "text/plain; charset=utf-8",
    ".webp" := "image/webp"
  ]

  const DefaultMimeType: string := "application/octet-stream"

  /** The type of an HTML page. */
  const HtmlType: string := "text/html; charset=utf-8"

  /**
   * `MIME_TYPES[ext] || 'application/octet-stream'`. Only `.html` has the HTML
   * type, and the fallback is no entry's type.
   */
  function MimeType(ext: string): (t: string)
    ensures ext in MimeTypes ==> t == MimeTypes[ext]
    ensures t == HtmlType <==> ext == ".html"
    ensures t == DefaultMimeType <==> ext !in MimeTypes
  {
    if ext in MimeTypes then MimeTypes[ext] else DefaultMimeType
  }

  /** The index of the last `c` in `s`. */
  function LastIndexOf(s: string, c: char): (r: Option<nat>)
    ensures r.Some? ==> r.value < |s| && s[r.value] == c && c !in s[r.value + 1..]
    ensures r.None? ==> c !in s
  {
    if |s| == 0 then None
    else if s[|s| - 1] == c then Some(|s| - 1)
    else
      var r := LastIndexOf(s[..|s| - 1], c);
      assert s == s[..|s| - 1] + [s[|s| - 1]];
      if r.Some? then
        assert s[r.value + 1..] == s[..|s| - 1][r.value + 1..] + [s[|s| - 1]];
        r
      else
        r
  }

  /**
   * `path.extname` on a path without a trailing slash: from the last `.` of
   * the last segment to the end, except that a leading dot (`.bashrc`) and the
   * segment `..` have no extension.
   */
  function ExtName(path: string): (ext: string)
    ensures ext == [] || (ext[0] == '.' && '.' !in ext[1..] && '/' !in ext)
    ensures |ext| <= |path| && ext == path[|path| - |ext|..]
    ensures var segs := Split(path, '/');
      var base := segs[|segs| - 1];
      |ext| <= |base| && ext == base[|base| - |ext|..]
      && (ext != [] <==> base != ".." && exists k :: 0 < k < |base| && base[k] == '.')
  {
    var segs := Split(path, '/');
    var base := segs[|segs| - 1];
    match LastIndexOf(base, '.')
    case None => ""
    case Some(k) =>
      if k == 0 || base == ".." then
        assert forall k' :: 0 < k' < |base| ==> base[k'] == base[1..][k' - 1];
        ""
      else
        BaseIsSuffix(path);
        assert base[k..][1..] == base[k + 1..];
        assert '/' !in base;
        base[k..]
  }

  /** The last piece of a split is a suffix of the string. */
  lemma {:induction false} BaseIsSuffix(path: string)
    ensures var segs := Split(path, '/');
      |segs[|segs| - 1]| <= |path| && segs[|segs| - 1] == path[|path| - |segs[|segs| - 1]|..]
    decreases |path|
  {
    if |path| > 0 {
      var t := path[1..];
      BaseIsSuffix(t);
      var rest := Split(t, '/');
      var last := rest[|rest| - 1];
      assert t[|t| - |last|..] == path[|path| - |last|..];
      var segs := Split(path, '/');
      if path[0] == '/' {
        assert segs == [""] + rest;
      } else {
        assert segs == [[path[0]] + rest[0]] + rest[1..];
        if |rest| == 1 {
          assert Join(rest, "/") == rest[0];
          assert segs[|segs| - 1] == [path[0]] + t;
          assert path == [path[0]] + t;
        } else {
          assert segs[|segs| - 1] == last;
        }
      }
    }
  }

  /** The response to a file read: 404, 500, or 200 with the content type and the body. */
  function FileResponse(filePath: string, read: ReadResult): Response
  {
    match read
    case ReadError(code) =>
      if code == "ENOENT" then Response(404, [], "Not Found")
      else Response(500, [], "Internal Server Error")
    case Contents(data) =>
      var ext := LowerAscii(ExtName(filePath));
      var body := if ext == ".html" then InjectLiveReload(data) else data;
      Response(200, [("Cache-Control", "no-store"), ("Content-Type", MimeType(ext))], body)
  }

  /** The response a route produces on its own (the event stream starts with its first frame). */
  function RouteResponse(route: Route, read: ReadResult): Response
  {
    match route
    case BadRequest => Response(400, [], "Bad Request")
    case EventStream => Response(200, EventStreamHeaders, ConnectedFrame)
    case Forbidden => Response(403, [], "Forbidden")
    case ServeFile(filePath) => FileResponse(filePath, read)
  }

  // ---------------------------------------------------------------------
  // Path lemmas
  // ---------------------------------------------------------------------

  lemma JoinNonEmpty(segs: seq<string>)
    requires segs != [] && segs[0] != ""
    ensures Join(segs, "/") != ""
  {
  }

  /** Walking a concatenation is walking one part, then the other. */
  lemma {:induction false} NormalizeAppend(acc: seq<string>, xs: seq<string>, ys: seq<string>)
    requires Clean(acc)
    requires forall i :: 0 <= i < |xs| ==> '/' !in xs[i]
    requires forall i :: 0 <= i < |ys| ==> '/' !in ys[i]
    ensures forall i :: 0 <= i < |xs + ys| ==> '/' !in (xs + ys)[i]
    ensures Normalize(acc, xs + ys) == Normalize(Normalize(acc, xs), ys)
    decreases |xs|
  {
    if xs != [] {
      assert (xs + ys)[1..] == xs[1..] + ys;
      NormalizeAppend(Step(acc, xs[0]), xs[1..], ys);
    } else {
      assert xs + ys == ys;
    }
  }

  /** Clean segments are pushed as they are. */
  lemma {:induction false} NormalizeClean(acc: seq<string>, xs: seq<string>)
    requires Clean(acc) && Clean(xs)
    ensures Normalize(acc, xs) == acc + xs
    decreases |xs|
  {
    if xs != [] {
      NormalizeClean(acc + [xs[0]], xs[1..]);
      assert acc + [xs[0]] + xs[1..] == acc + xs;
    }
  }

  /** Without `..` nothing already walked is popped. */
  lemma {:induction false} NormalizeKeeps(acc: seq<string>, segs: seq<string>)
    requires Clean(acc) && forall i :: 0 <= i < |segs| ==> '/' !in segs[i] && segs[i] != ".."
    ensures |Normalize(acc, segs)| >= |acc| && Normalize(acc, segs)[..|acc|] == acc
    decreases |segs|
  {
    if segs != [] {
      NormalizeKeeps(Step(acc, segs[0]), segs[1..]);
      var r := Normalize(acc, segs);
      assert r[..|Step(acc, segs[0])|][..|acc|] == r[..|acc|];
    }
  }

  /** The segments of a clean absolute path are recovered by splitting it. */
  lemma SplitPathOf(segs: seq<string>)
    requires Clean(segs)
    ensures Split(PathOf(segs), '/') == [""] + (if segs == [] then [""] else segs)
  {
    assert PathOf(segs) == "" + "/" + Join(segs, "/");
    SplitAppend("", Join(segs, "/"), '/');
    if segs != [] {
      SplitJoin(segs, '/');
    }
  }

  /** Resolving against the root walks the relative path's segments from the root's. */
  lemma ResolveFromRoot(root: seq<string>, rel: string)
    requires Clean(root)
    ensures forall i :: 0 <= i < |Split(rel, '/')| ==> '/' !in Split(rel, '/')[i]
    ensures Resolve(root, rel) == PathOf(Normalize(root, Split(rel, '/')))
  {
    var head := Split(PathOf(root), '/');
    SplitPathOf(root);
    assert Normalize([], head) == root by {
      var tail := if root == [] then [""] else root;
      assert head[0] == "" && head[1..] == tail;
      assert Normalize([], head) == Normalize([], tail);
      if root == [] {
        assert Normalize([], [""]) == Normalize([], []);
      } else {
        NormalizeClean([], root);
      }
    }
    SplitAppend(PathOf(root), rel, '/');
    NormalizeAppend([], head, Split(rel, '/'));
  }

  /** The intended guard holds exactly when the root's segments begin the path's. */
  lemma InsideRootIff(segs: seq<string>, root: seq<string>)
    requires Clean(segs) && Clean(root)
    ensures InsideRoot(PathOf(segs), root) <==> |segs| >= |root| && segs[..|root|] == root
  {
    if root != [] {
      if |segs| >= |root| && segs[..|root|] == root {
        PrefixInside(segs, root);
      }
      if InsideRoot(PathOf(segs), root) {
        InsidePrefix(segs, root);
      }
    }
  }

  /** Segments that begin with the root's give a path the intended guard lets through. */
  lemma PrefixInside(segs: seq<string>, root: seq<string>)
    requires Clean(segs) && Clean(root) && root != []
    requires |segs| >= |root| && segs[..|root|] == root
    ensures InsideRoot(PathOf(segs), root)
  {
    if |segs| > |root| {
      var more := segs[|root|..];
      JoinAppend(root, more, "/");
      assert segs == root + more;
      var p := PathOf(root) + "/";
      assert PathOf(segs) == p + Join(more, "/");
      assert PathOf(segs)[..|p|] == p;
    } else {
      assert segs == root;
    }
  }

  /** A path the intended guard lets through has segments that begin with the root's. */
  lemma InsidePrefix(segs: seq<string>, root: seq<string>)
    requires Clean(segs) && Clean(root) && root != []
    requires InsideRoot(PathOf(segs), root)
    ensures |segs| >= |root| && segs[..|root|] == root
  {
    var js, jr := Join(segs, "/"), Join(root, "/");
    JoinNonEmpty(root);
    SplitJoin(segs, '/');
    SplitJoin(root, '/');
    if PathOf(segs) == PathOf(root) {
      assert js == PathOf(segs)[1..] == PathOf(root)[1..] == jr;
    } else {
      var tail := BelowRoot(segs, root);
      SplitAppend(jr, tail, '/');
      assert segs == root + Split(tail, '/');
      assert segs[..|root|] == root;
    }
  }

  /** A path below the root's is the root's joined segments, a `/`, and the rest. */
  lemma BelowRoot(segs: seq<string>, root: seq<string>) returns (tail: string)
    requires StartsWith(PathOf(segs), PathOf(root) + "/")
    ensures Join(segs, "/") == Join(root, "/") + "/" + tail
  {
    var p := PathOf(root) + "/";
    tail := PathOf(segs)[|p|..];
    assert PathOf(segs) == p + tail;
    assert PathOf(segs)[1..] == (p + tail)[1..];
  }

  // ---------------------------------------------------------------------
  // Properties of routing
  // ---------------------------------------------------------------------

  /** The query string is dropped before the path is matched. */
  lemma QueryStripped(path: string, query: string)
    requires '?' !in path
    ensures RequestPath(path + "?" + query) == path
    ensures RequestPath(path) == path
  {
    SplitCons(path, query, '?');
    SplitNoSep(path, '?');
  }

  /**
   * A missing or empty URL is a bad request, the stream path opens the event
   * stream whatever the query, and every other path is served or forbidden.
   */
  lemma RouteCases(url: Option<string>, root: seq<string>)
    requires Clean(root)
    ensures url.None? || url == Some("") <==> RouteOf(url, root) == BadRequest
    ensures url.Some? && url.value != "" && RequestPath(url.value) == StreamPath <==> RouteOf(url, root) == EventStream
  {
  }

  /**
   * Under the intended guard, a file is served only from below the root: its
   * resolved segments start with the root's.
   */
  lemma ServedInsideRoot(url: Option<string>, root: seq<string>)
    requires Clean(root) && RouteOf(url, root).ServeFile?
    ensures exists segs ::
      Clean(segs) && RouteOf(url, root).path == PathOf(segs) && |segs| >= |root| && segs[..|root|] == root
  {
    var rel := "." + NormalizedPath(RequestPath(url.value));
    ResolveFromRoot(root, rel);
    var segs := Normalize(root, Split(rel, '/'));
    InsideRootIff(segs, root);
  }

  /** A request path with no `..` segment is never forbidden, under either guard. */
  lemma NoDotDotAllowed(url: string, root: seq<string>)
    requires Clean(root) && url != "" && RequestPath(url) != StreamPath
    requires forall i :: 0 <= i < |Split("." + NormalizedPath(RequestPath(url)), '/')| ==>
      Split("." + NormalizedPath(RequestPath(url)), '/')[i] != ".."
    ensures RouteOf(Some(url), root).ServeFile? && RouteAsWritten(Some(url), root).ServeFile?
  {
    var rel := "." + NormalizedPath(RequestPath(url));
    ResolveFromRoot(root, rel);
    var segs := Normalize(root, Split(rel, '/'));
    NormalizeKeeps(root, Split(rel, '/'));
    InsideRootIff(segs, root);
    if root != [] {
      assert StartsWith(PathOf(segs), PathOf(root) + "/") || PathOf(segs) == PathOf(root);
      assert PathOf(segs)[..|PathOf(root)|] == PathOf(root);
    }
  }

  /** The two guards differ only on paths that extend the root's text without lying below it. */
  lemma GuardsDiffer(url: Option<string>, root: seq<string>)
    requires Clean(root)
    ensures RouteOf(url, root) != RouteAsWritten(url, root) ==>
      RouteOf(url, root) == Forbidden && RouteAsWritten(url, root).ServeFile?
      && PrefixGuard(RouteAsWritten(url, root).path, root)
      && !InsideRoot(RouteAsWritten(url, root).path, root)
  {

  }

  /** A request for `/../sibling/file`: no query, and four segments once resolved against `.`. */
  lemma SiblingRequest(url: string, sibling: string, file: string)
    requires CleanSegment(sibling) && CleanSegment(file) && '?' !in sibling && '?' !in file
    requires url == "/../" + sibling + "/" + file
    ensures RequestPath(url) == url && url != StreamPath && NormalizedPath(url) == url
    ensures Split("." + url, '/') == [".", "..", sibling, file]
  {
    assert url == "" + "/" + (".." + "/" + (sibling + "/" + file));
    assert '?' !in url;
    SplitNoSep(url, '?');
    assert url != StreamPath by { assert url[1] == '.'; }
    var rel := "." + url;
    assert rel == "." + "/" + (".." + "/" + (sibling + "/" + file));
    SplitNoSep(file, '/');
    SplitCons(sibling, file, '/');
    SplitCons("..", sibling + "/" + file, '/');
    SplitCons(".", ".." + "/" + (sibling + "/" + file), '/');
  }

  /** Walking `.`, `..`, `sibling`, `file` from the root replaces its last segment. */
  lemma SiblingWalk(root: seq<string>, sibling: string, file: string)
    requires Clean(root) && root != [] && CleanSegment(sibling) && CleanSegment(file)
    ensures Normalize(root, [".", "..", sibling, file]) == root[..|root| - 1] + [sibling, file]
  {
    var segs := [".", "..", sibling, file];
    assert segs[1..] == ["..", sibling, file] && segs[1..][1..] == [sibling, file];
    assert Step(root, ".") == root;
    assert Step(root, "..") == root[..|root| - 1];
    NormalizeClean(root[..|root| - 1], [sibling, file]);
  }

  /** The path of that sibling begins with the root's text. */
  lemma SiblingText(root: seq<string>, suffix: string, file: string)
    requires Clean(root) && root != []
    ensures var n := |root|;
      StartsWith(PathOf(root[..n - 1] + [root[n - 1] + suffix, file]), PathOf(root))
  {
    var n := |root|;
    var last := root[n - 1];
    var sibling := last + suffix;
    var pre := root[..n - 1];
    var served := pre + [sibling, file];
    assert Join([sibling, file], "/") == sibling + "/" + file by {
      assert [sibling, file][1..] == [file];
    }
    assert sibling[..|last|] == last;
    if n == 1 {
      assert served == [sibling, file];
      assert PathOf(served) == "/" + sibling + "/" + file;
      assert root == [last];
      assert PathOf(root) == "/" + last;
      assert PathOf(served)[..|PathOf(root)|] == PathOf(root);
    } else {
      JoinAppend(pre, [sibling, file], "/");
      JoinAppend(pre, [last], "/");
      assert root == pre + [last];
      var q := "/" + Join(pre, "/") + "/";
      assert PathOf(served) == q + (sibling + "/" + file);
      assert PathOf(root) == q + last;
      assert PathOf(served)[..|PathOf(root)|] == PathOf(root);
    }
  }

  /**
   * As written, the guard lets a request climb out of the root into a sibling
   * directory whose name extends the root's last segment: the file is served
   * although its path does not lie below the root. The intended guard refuses it.
   */
  lemma SiblingServedAsWritten(root: seq<string>, suffix: string, file: string) returns (served: seq<string>)
    requires Clean(root) && root != [] && forall i :: 0 <= i < |root| ==> '?' !in root[i]
    requires CleanSegment(root[|root| - 1] + suffix) && suffix != [] && '?' !in suffix
    requires CleanSegment(file) && '?' !in file
    ensures var url := "/../" + root[|root| - 1] + suffix + "/" + file;
      RouteAsWritten(Some(url), root) == ServeFile(PathOf(served))
      && RouteOf(Some(url), root) == Forbidden
      && !(|served| >= |root| && served[..|root|] == root)
  {
    var n := |root|;
    var sibling := root[n - 1] + suffix;
    var url := "/../" + sibling + "/" + file;
    assert url == "/../" + root[n - 1] + suffix + "/" + file;
    SiblingRequest(url, sibling, file);
    ResolveFromRoot(root, "." + url);
    SiblingWalk(root, sibling, file);
    served := root[..n - 1] + [sibling, file];
    assert Resolve(root, "." + url) == PathOf(served);
    SiblingText(root, suffix, file);
    InsideRootIff(served, root);
    assert served[n - 1] != root[n - 1];
  }

  // ---------------------------------------------------------------------
  // Properties of file responses
  // ---------------------------------------------------------------------

  /**
   * Every status the handler sends, by route and read result: 400 for a
   * missing or empty URL, 200 for the stream and for a file that was read,
   * 404 when an allowed file does not exist and 500 for any other read error.
   */
  lemma ResponseStatus(url: Option<string>, root: seq<string>, read: ReadResult)
    requires Clean(root)
    ensures var route := RouteOf(url, root);
      var status := RouteResponse(route, read).status;
      (status == 400 <==> url.None? || url == Some(""))
      && (status == 200 <==> route == EventStream || (route.ServeFile? && read.Contents?))
      && (status == 404 <==> route.ServeFile? && read == ReadError("ENOENT"))
      && (status == 500 <==> route.ServeFile? && read.ReadError? && read.code != "ENOENT")
  {
    RouteCases(url, root);
  }

  /**
   * A request for a file gets 403 exactly when the path it resolves to does not
   * lie below the root; otherwise the file at that path is read.
   */
  lemma ForbiddenIff(url: string, root: seq<string>, read: ReadResult)
    requires Clean(root) && url != "" && RequestPath(url) != StreamPath
    ensures var segs := Normalize(root, Split("." + NormalizedPath(RequestPath(url)), '/'));
      var route := RouteOf(Some(url), root);
      (RouteResponse(route, read).status == 403 <==> !(|segs| >= |root| && segs[..|root|] == root))
      && (route != Forbidden ==> route == ServeFile(PathOf(segs)))
  {
    var rel := "." + NormalizedPath(RequestPath(url));
    ResolveFromRoot(root, rel);
    InsideRootIff(Normalize(root, Split(rel, '/')), root);
  }

  /**
   * A file that was read goes out with `Cache-Control: no-store` and a
   * content type. The type is HTML exactly when the body carries the
   * live-reload snippet: cutting it back out gives the file as read.
   * Any other type is sent with the file unchanged.
   */
  lemma FileBodyMatchesType(filePath: string, data: string)
    ensures var r := FileResponse(filePath, Contents(data));
      r.status == 200 && |r.headers| == 2 && r.headers[0] == ("Cache-Control", "no-store")
      && r.headers[1].0 == "Content-Type"
      && (r.headers[1].1 != HtmlType ==> r.body == data)
      && (r.headers[1].1 == HtmlType ==>
            match IndexOf(data, BodyClose, 0)
            case Some(i) =>
              |r.body| == |data| + |Inserted| && r.body[i..i + |Inserted|] == Inserted
              && r.body[..i] + r.body[i + |Inserted|..] == data
            case None => r.body == data + Snippet)
  {
    var ext := LowerAscii(ExtName(filePath));
    if ext == ".html" {
      InjectPlacesSnippet(data);
      match IndexOf(data, BodyClose, 0)
      case Some(i) => InjectIsUndone(data, i);
      case None =>
    }
  }

  /**
   * Upper-case extensions are recognised: a page `dir/stem.HTML` is served as
   * HTML and gets the live-reload script too.
   */
  lemma UpperCaseHtml(dir: string, stem: string)
    requires '/' !in stem && stem != [] && stem[0] != '.' && '.' !in stem
    ensures LowerAscii(ExtName(dir + "/" + stem + ".HTML")) == ".html"
    ensures MimeType(LowerAscii(ExtName(dir + "/" + stem + ".HTML"))) == HtmlType
  {
    var base := stem + ".HTML";
    var path := dir + "/" + stem + ".HTML";
    assert path == dir + ['/'] + base;
    SplitAppend(dir, base, '/');
    SplitNoSep(base, '/');
    var segs := Split(path, '/');
    assert segs[|segs| - 1] == base;
    HtmlExt(stem, base);
    ExtOfLastDot(path, base, |stem|);
    LowerHtml();
  }

  /** `'.HTML'.toLowerCase()`. */
  lemma LowerHtml()
    ensures LowerAscii(".HTML") == ".html"
  {
    assert LowerAscii(".HTML")[0] == '.';
  }

  /** The extension runs from the last `.` of the last segment when that `.` is not its first character. */
  lemma ExtOfLastDot(path: string, base: string, k: nat)
    requires var segs := Split(path, '/'); segs[|segs| - 1] == base
    requires LastIndexOf(base, '.') == Some(k) && k > 0 && base != ".."
    ensures ExtName(path) == base[k..]
  {
  }

  /** The last `.` of `stem.HTML` is the one before `HTML`. */
  lemma HtmlExt(stem: string, path: string)
    requires '/' !in stem && stem != [] && stem[0] != '.' && '.' !in stem && path == stem + ".HTML"
    ensures LastIndexOf(path, '.') == Some(|stem|) && path[|stem|..] == ".HTML"
  {
    assert path[..|path| - 1] == stem + ".HTM";
    assert (stem + ".HTM")[..|stem| + 3] == stem + ".HT";
    assert (stem + ".HT")[..|stem| + 2] == stem + ".H";
    assert (stem + ".H")[..|stem| + 1] == stem + ".";
    assert LastIndexOf(stem + ".", '.') == Some(|stem|);
    assert LastIndexOf(path, '.') == Some(|stem|);
    assert path[|stem|..] == ".HTML";
  }
}
