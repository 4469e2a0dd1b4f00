/**
 The resource resolver: the requested URL path is turned into a file under
 the root directory, or into the root's not-found page when that file does
 not exist. The filesystem is the set of paths at which a regular file
 exists; nothing is opened here.
 */
module Resolution {
  import opened Paths

  const IndexFile: string := "index.html"
  const NotFoundFile: string := "error_404.html"

  /**
   String.TrimStart('/'): the result is what is left after removing the
   longest run of '/' at the front.
   */
  function TrimStartSlashes(s: string): (r: string)
    ensures |r| <= |s| && r == s[|s| - |r|..]
    ensures forall i :: 0 <= i < |s| - |r| ==> s[i] == '/'
    ensures r == [] || r[0] != '/'
    decreases |s|
  {
    if s != [] && s[0] == '/' then TrimStartSlashes(s[1..]) else s
  }

  /** The first `k` characters of `s` are all '/'. */
  predicate SlashesUpTo(s: string, k: nat) {
    k <= |s| && forall i :: 0 <= i < k ==> s[i] == '/'
  }

  /** TrimStart('/') keeps the path from its first character that is not '/' on. */
  lemma {:induction false} TrimStartSlashesAt(s: string, k: nat)
    requires SlashesUpTo(s, k) && k < |s| && s[k] != '/'
    ensures TrimStartSlashes(s) == s[k..]
    decreases k
  {
    if k > 0 {
      assert s[0] == '/';
      assert SlashesUpTo(s[1..], k - 1) by {
        forall i | 0 <= i < k - 1 ensures s[1..][i] == '/' {
          assert s[1..][i] == s[i + 1];
        }
      }
      TrimStartSlashesAt(s[1..], k - 1);
      assert s[1..][k - 1..] == s[k..];
    }
  }

  /** TrimStart('/') keeps nothing of a path made of slashes only. */
  lemma {:induction false} TrimStartAllSlashes(s: string)
    requires SlashesUpTo(s, |s|)
    ensures TrimStartSlashes(s) == []
    decreases |s|
  {
    if s != [] {
      assert s[0] == '/';
      assert SlashesUpTo(s[1..], |s| - 1) by {
        forall i | 0 <= i < |s| - 1 ensures s[1..][i] == '/' {
          assert s[1..][i] == s[i + 1];
        }
      }
      TrimStartAllSlashes(s[1..]);
    }
  }

  lemma TrimStartSlashesFrom(s: string)
    ensures SlashesUpTo(s, |s|) ==> TrimStartSlashes(s) == []
    ensures forall k: nat :: SlashesUpTo(s, k) && k < |s| && s[k] != '/' ==> TrimStartSlashes(s) == s[k..]
  {
    if SlashesUpTo(s, |s|) {
      TrimStartAllSlashes(s);
    }
    forall k: nat | SlashesUpTo(s, k) && k < |s| && s[k] != '/'
      ensures TrimStartSlashes(s) == s[k..]
    {
      TrimStartSlashesAt(s, k);
    }
  }

  /**
   The root-relative name of the requested file: the URL's absolute path
   with its leading slashes removed, or index.html when nothing is left.
   */
  function RequestedFile(absolutePath: string): (name: string)
    ensures name != [] && !IsPathRooted(name)
    ensures SlashesUpTo(absolutePath, |absolutePath|) ==> name == IndexFile
    ensures forall k: nat :: SlashesUpTo(absolutePath, k) && k < |absolutePath| && absolutePath[k] != '/'
                        ==> name == absolutePath[k..]
  {
    var urlPath := TrimStartSlashes(absolutePath);
    TrimStartSlashesFrom(absolutePath);
    if urlPath == [] then IndexFile else urlPath
  }

  /** The outcome of resolution: the path to serve and whether it was found. */
  datatype Resolved = Resolved(filePath: string, found: bool)

  /**
   The path served for `absolutePath`: the requested file joined onto the
   root when a file exists there, otherwise the root's not-found page.
   */
  function Resolve(root: string, existing: set<string>, absolutePath: string): (res: Resolved)
    ensures res.found <==> JoinPrefix(root) + RequestedFile(absolutePath) in existing
    ensures res.filePath
            == JoinPrefix(root) + (if res.found then RequestedFile(absolutePath) else NotFoundFile)
  {
    var urlPath := RequestedFile(absolutePath);
    var filePath := Combine(root, urlPath);
    if filePath in existing then Resolved(filePath, true)
    else Resolved(Combine(root, NotFoundFile), false)
  }

  /** Every leading slash is removed, so one more in front changes nothing. */
  lemma ExtraLeadingSlash(absolutePath: string)
    ensures RequestedFile("/" + absolutePath) == RequestedFile(absolutePath)
  {
    assert ("/" + absolutePath)[1..] == absolutePath;
  }

  /** `/`, `//` and `/index.html` are all resolved the same way. */
  lemma RootResolvesAsIndex(root: string, existing: set<string>)
    ensures Resolve(root, existing, "/") == Resolve(root, existing, "/index.html")
    ensures Resolve(root, existing, "//") == Resolve(root, existing, "/index.html")
    ensures Resolve(root, existing, "") == Resolve(root, existing, "/index.html")
  {
    assert "/index.html" == "/" + IndexFile;
    ExtraLeadingSlash(IndexFile);
  }

  /** A URL path starting with `/../` keeps its `..` segment. */
  lemma DotDotIsRequested(tail: string)
    ensures RequestedFile("/../" + tail) == "../" + tail
  {
    var rel := "../" + tail;
    assert "/../" + tail == "/" + rel;
    ExtraLeadingSlash(rel);
    assert rel[0] == '.';
  }

  /**
   No traversal guard: a URL path that climbs out of the root with `..` is
   joined onto the root as it is, and the file it names is served whenever
   it exists.
   */
  lemma DotDotIsNotRejected(root: string, existing: set<string>, tail: string)
    requires JoinPrefix(root) + ("../" + tail) in existing
    ensures Resolve(root, existing, "/../" + tail) == Resolved(JoinPrefix(root) + ("../" + tail), true)
  {
    DotDotIsRequested(tail);
  }
}
