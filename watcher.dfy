/**
 * The file-watcher filter of scripts/dev-server.mjs: which change
 * notifications from `fs.watch` lead to a live reload.
 *
 * The platform path separator is a parameter (`/` on POSIX, `\` on Windows).
 */
module Watcher {
  import opened Wrappers
  import opened JsStrings

  /** The top-level directories whose contents never trigger a reload. */
  const IgnoredDirs: set<string> := {".git", "node_modules", ".worktrees"}

  /** `shouldIgnorePath`: the path lies under `.git/`, `node_modules/` or `.worktrees/`. */
  predicate ShouldIgnorePath(relativePath: string)
  {
    StartsWith(relativePath, ".git/")
    || StartsWith(relativePath, "node_modules/")
    || StartsWith(relativePath, ".worktrees/")
  }

  /** `filename.split(path.sep).join('/')`. */
  function RelativePath(filename: string, sep: char): (r: string)
    ensures |r| == |filename|
    ensures forall i :: 0 <= i < |r| ==> r[i] == if filename[i] == sep then '/' else filename[i]
  {
    SplitJoinReplaces(filename, sep, '/');
    Join(Split(filename, sep), "/")
  }

  /** The watcher callback: does this notification queue a reload? */
  predicate QueuesReload(eventType: string, filename: Option<string>, sep: char)
  {
    match filename
    case None => false
    case Some(name) =>
      name != "" && !ShouldIgnorePath(RelativePath(name, sep))
      && (eventType == "change" || eventType == "rename")
  }

  // ---------------------------------------------------------------------
  // Properties
  // ---------------------------------------------------------------------

  /**
   * Starting with `dir/` is having `dir` as first component with something
   * after it.
   */
  lemma DirPrefix(p: string, dir: string)
    requires '/' !in dir
    ensures StartsWith(p, dir + "/") <==> |Split(p, '/')| >= 2 && Split(p, '/')[0] == dir
  {
    var comps := Split(p, '/');
    if StartsWith(p, dir + "/") {
      var rest := p[|dir| + 1..];
      assert p == dir + ['/'] + rest;
      SplitCons(dir, rest, '/');
    }
    if |comps| >= 2 && comps[0] == dir {
      assert Join(comps, "/") == dir + "/" + Join(comps[1..], "/");
    }
  }

  /**
   * A path is ignored exactly when its first component is `.git`,
   * `node_modules` or `.worktrees` and something lies below it.
   */
  lemma IgnoredIffUnderDir(relativePath: string)
    ensures ShouldIgnorePath(relativePath) <==>
      |Split(relativePath, '/')| >= 2 && Split(relativePath, '/')[0] in IgnoredDirs
  {
    DirPrefix(relativePath, ".git");
    DirPrefix(relativePath, "node_modules");
    DirPrefix(relativePath, ".worktrees");
  }

  /** Everything below an ignored directory is ignored, however deep. */
  lemma IgnoredBelow(dir: string, rest: string)
    requires dir in IgnoredDirs
    ensures ShouldIgnorePath(dir + "/" + rest)
  {
    var p := dir + "/" + rest;
    assert p == dir + ['/'] + rest;
    SplitCons(dir, rest, '/');
    IgnoredIffUnderDir(p);
  }

  /**
   * Only paths inside those directories are ignored: the directory name alone
   * (no slash), or a file such as `.gitignore`, is watched.
   */
  lemma NotIgnoredWithoutSlash(relativePath: string)
    requires '/' !in relativePath
    ensures !ShouldIgnorePath(relativePath)
  {
    if |relativePath| >= 5 {
      assert relativePath[..5][4] == relativePath[4] != '/';
    }
    if |relativePath| >= 11 {
      assert relativePath[..11][10] == relativePath[10] != '/';
    }
    if |relativePath| >= 13 {
      assert relativePath[..13][12] == relativePath[12] != '/';
    }
  }

  /** On POSIX the name is used as it is. */
  lemma PosixPathUnchanged(filename: string)
    ensures RelativePath(filename, '/') == filename
  {
  }

  /**
   * On Windows `node_modules\pkg\index.js` is recognised as lying under
   * `node_modules/`: the separator is translated before the test.
   */
  lemma WindowsSeparatorTranslated(rest: string)
    ensures ShouldIgnorePath(RelativePath("node_modules\\" + rest, '\\'))
  {
    var r := RelativePath("node_modules\\" + rest, '\\');
    assert r[..13] == "node_modules/";
  }

  /** Saving a top-level file on POSIX queues a reload. */
  lemma TopLevelChangeQueues(name: string)
    requires name != [] && '/' !in name
    ensures QueuesReload("change", Some(name), '/')
  {
    PosixPathUnchanged(name);
    NotIgnoredWithoutSlash(name);
  }

  /**
   * A notification queues a reload exactly when it names a file, it is a
   * change or a rename, and the file is not below `.git`, `node_modules` or
   * `.worktrees`: its path, with the platform separator read as `/`, is a
   * single component or starts with another directory.
   */
  lemma QueuesReloadIff(eventType: string, filename: Option<string>, sep: char)
    ensures QueuesReload(eventType, filename, sep) <==>
      && filename.Some? && filename.value != []
      && (eventType == "change" || eventType == "rename")
      && var comps := Split(RelativePath(filename.value, sep), '/');
         |comps| == 1 || comps[0] !in IgnoredDirs
  {
    if filename.Some? {
      IgnoredIffUnderDir(RelativePath(filename.value, sep));
    }
  }
}
