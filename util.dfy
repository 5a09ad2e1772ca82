/** The two helpers of `rituals.util`: the upward search for a file and the
    `PYTHONPATH` prepend. Paths are lists of components below the top
    directory; the filesystem is the predicate `present`, true of a
    directory that holds the file searched for. */
module Util {
  import opened Text

  /** `os.path.dirname` on components: the top directory is its own dirname. */
  function DirName(dir: seq<string>): (d: seq<string>)
    ensures d == dir <==> dir == []
    ensures dir != [] ==> d == dir[..|dir| - 1]
  {
    if dir == [] then [] else dir[..|dir| - 1]
  }

  /** Where the search starts: the given base, or `cwd` when there is none.
      An empty `base` string, which `base or os.getcwd()` treats as missing,
      is `None` here. */
  function StartDir(base: Option<seq<string>>, cwd: seq<string>): seq<string> {
    if base.Some? then base.value else cwd
  }

  /** `search_file_upwards`: the nearest of start, its parent, its
      grandparent … below the top that holds the file; the top directory
      itself is never looked at. */
  method SearchFileUpwards(present: seq<string> -> bool, base: Option<seq<string>>, cwd: seq<string>)
    returns (found: Option<seq<string>>)
    ensures found.Some? ==>
      var start := StartDir(base, cwd);
      1 <= |found.value| <= |start| && found.value == start[..|found.value|] &&
      present(found.value) &&
      forall k :: |found.value| < k <= |start| ==> !present(start[..k])
    ensures found.None? <==>
      forall k :: 1 <= k <= |StartDir(base, cwd)| ==> !present(StartDir(base, cwd)[..k])
  {
    var start := StartDir(base, cwd);
    var dir := start;
    assert start[..|start|] == start;
    while dir != DirName(dir)
      invariant |dir| <= |start| && dir == start[..|dir|]
      invariant forall k :: |dir| < k <= |start| ==> !present(start[..k])
      decreases |dir|
    {
      if present(dir) {
        return Some(dir);
      }
      dir := DirName(dir);
    }
    return None;
  }

  /** `add_dir2pypath` on the value of `PYTHONPATH` (`""` when unset):
      prepend `path` unless it already is one of the `:`-separated entries. */
  function AddDirToPyPath(pyPath: string, path: string): (r: string)
    ensures path in Split(pyPath, ':') <==> r == pyPath
    ensures path !in Split(pyPath, ':') ==> StartsWith(r, path) && EndsWith(r, pyPath)
  {
    if path in Split(pyPath, ':') then pyPath
    else
      var r := path + (if pyPath != "" then ":" else "") + pyPath;
      assert r[..|path|] == path && r[|r| - |pyPath|..] == pyPath;
      r
  }

  /** The entries after the prepend: the new one first, then the old ones
      in their order; a separator only when the old value was not empty. */
  lemma PyPathEntries(pyPath: string, path: string)
    requires ':' !in path && path !in Split(pyPath, ':')
    ensures pyPath == "" ==> Split(AddDirToPyPath(pyPath, path), ':') == [path]
    ensures pyPath != "" ==> Split(AddDirToPyPath(pyPath, path), ':') == [path] + Split(pyPath, ':')
  {
    if pyPath == "" {
      assert AddDirToPyPath(pyPath, path) == path;
      SplitJoin([path], ':');
    } else {
      assert AddDirToPyPath(pyPath, path) == path + [':'] + pyPath;
      SplitAround(path, ':', pyPath);
      SplitJoin([path], ':');
    }
  }

  /** A second prepend of the same directory changes nothing, as long as
      the directory is a single entry (holds no `:`). */
  lemma AddDirToPyPathIdempotent(pyPath: string, path: string)
    requires ':' !in path
    ensures AddDirToPyPath(AddDirToPyPath(pyPath, path), path) == AddDirToPyPath(pyPath, path)
  {
    if path !in Split(pyPath, ':') {
      PyPathEntries(pyPath, path);
      var r := AddDirToPyPath(pyPath, path);
      assert Split(r, ':')[0] == path;
    }
  }

  /** A directory holding `:` is two entries, so it is prepended again. */
  lemma AddDirWithSeparatorTwice()
    ensures AddDirToPyPath(AddDirToPyPath("", "a:b"), "a:b") == "a:b:a:b"
  {
    SplitJoin([""], ':');
    assert "a:b" !in Split("", ':');
    assert AddDirToPyPath("", "a:b") == "a:b";
    SplitJoin(["a", "b"], ':');
    assert Join(["a", "b"], [':']) == "a:b";
    assert "a:b" !in Split("a:b", ':');
    assert "a:b" + ":" + "a:b" == "a:b:a:b";
  }
}
