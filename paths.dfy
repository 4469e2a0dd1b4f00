/** The small option type used for optional response fields and for parsers. */
module Wrappers {
  datatype Option<+T> = None | Some(value: T)
}

/**
 The parts of System.IO.Path that the server relies on, as .NET implements
 them on Unix: '/' is the only directory separator and a path is rooted when
 it starts with one.
 */
module Paths {

  const DirectorySeparator: char := '/'

  predicate IsPathRooted(path: string) {
    |path| > 0 && path[0] == DirectorySeparator
  }

  /** What Combine puts in front of a relative, non-empty second argument. */
  function JoinPrefix(path1: string): string {
    if path1 == [] || path1[|path1| - 1] == DirectorySeparator then path1
    else path1 + [DirectorySeparator]
  }

  /**
   Path.Combine(path1, path2): an empty argument yields the other one, a
   rooted second argument replaces the first, and otherwise the two are
   joined, with a separator added between them unless `path1` already ends
   in one. The contract describes the library call's result; what the
   server relies on is proved through it, in `Resolution.Resolve` and
   `AuditLog.LogFileNameIsCombined`.
   */
  function Combine(path1: string, path2: string): (r: string)
    ensures path2 != [] && !IsPathRooted(path2) ==> r == JoinPrefix(path1) + path2
    ensures IsPathRooted(path2) ==> r == path2
  {
    if path2 == [] then path1
    else if path1 == [] then path2
    else if IsPathRooted(path2) then path2
    else if path1[|path1| - 1] == DirectorySeparator then path1 + path2
    else path1 + [DirectorySeparator] + path2
  }

  /**
   `e` is an extension of `path`: a suffix of it that starts with '.', has
   at least one more character, and holds no further '.' and no separator.
   */
  ghost predicate IsExtension(e: string, path: string) {
    && 2 <= |e| <= |path|
    && e == path[|path| - |e|..]
    && e[0] == '.'
    && forall i :: 1 <= i < |e| ==> e[i] != '.' && e[i] != DirectorySeparator
  }

  /**
   The backward scan of Path.GetExtension: `seen` holds the characters
   already passed over (none of them a '.' or a separator). The scan stops
   at the first '.' (an extension, unless that '.' ends the path) or at the
   first separator (no extension).
   */
  function ExtensionScan(path: string, seen: string): (e: string)
    requires forall i :: 0 <= i < |seen| ==> seen[i] != '.' && seen[i] != DirectorySeparator
    ensures e == [] || IsExtension(e, path + seen)
  {
    if path == [] then []
    else
      var c := path[|path| - 1];
      if c == '.' then
        if seen == [] then []
        else
          assert (path + seen)[|path| - 1..] == [c] + seen;
          [c] + seen
      else if c == DirectorySeparator then []
      else
        assert path[..|path| - 1] + ([c] + seen) == path + seen;
        ExtensionScan(path[..|path| - 1], [c] + seen)
  }

  /** Path.GetExtension(path): the extension including its dot, or "". */
  function GetExtension(path: string): (e: string)
    ensures e == [] || IsExtension(e, path)
  {
    assert path + [] == path;
    ExtensionScan(path, [])
  }

  /** The scan finds every extension whose dot lies before what it has seen. */
  lemma {:induction false} ExtensionScanFinds(path: string, seen: string, e: string)
    requires forall i :: 0 <= i < |seen| ==> seen[i] != '.' && seen[i] != DirectorySeparator
    requires IsExtension(e, path + seen)
    ensures ExtensionScan(path, seen) == e
    decreases |path|
  {
    var whole := path + seen;
    var dot := |whole| - |e|;
    assert whole[dot] == '.';
    assert dot < |path|;
    var c := path[|path| - 1];
    if dot == |path| - 1 {
      assert c == '.';
      assert e == whole[dot..] == [c] + seen;
    } else {
      assert c == e[|path| - 1 - dot] by { assert whole[|path| - 1] == c; }
      var seen' := [c] + seen;
      assert path[..|path| - 1] + seen' == whole;
      ExtensionScanFinds(path[..|path| - 1], seen', e);
    }
  }

  /** GetExtension returns an extension exactly when the path has one. */
  lemma GetExtensionComplete(path: string, e: string)
    requires IsExtension(e, path)
    ensures GetExtension(path) == e
  {
    assert path + [] == path;
    ExtensionScanFinds(path, [], e);
  }

  /**
   Text in front of a name that holds a '.' or a separator never changes
   the extension: the scan stops inside the name.
   */
  lemma {:induction false} ExtensionScanOfSuffix(stem: string, name: string, seen: string)
    requires forall i :: 0 <= i < |seen| ==> seen[i] != '.' && seen[i] != DirectorySeparator
    requires exists k :: 0 <= k < |name| && (name[k] == '.' || name[k] == DirectorySeparator)
    ensures ExtensionScan(stem + name, seen) == ExtensionScan(name, seen)
    decreases |name|
  {
    var whole := stem + name;
    var c := name[|name| - 1];
    assert whole[|whole| - 1] == c;
    if c != '.' && c != DirectorySeparator {
      var k :| 0 <= k < |name| && (name[k] == '.' || name[k] == DirectorySeparator);
      var name' := name[..|name| - 1];
      assert name'[k] == name[k];
      assert whole[..|whole| - 1] == stem + name';
      ExtensionScanOfSuffix(stem, name', [c] + seen);
    }
  }

  lemma GetExtensionOfSuffix(stem: string, name: string)
    requires exists k :: 0 <= k < |name| && (name[k] == '.' || name[k] == DirectorySeparator)
    ensures GetExtension(stem + name) == GetExtension(name)
  {
    ExtensionScanOfSuffix(stem, name, []);
  }
}
