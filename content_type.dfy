/**
 The content type resolver: the MIME type a response is labelled with is a
 fixed lookup on the lower-cased extension of the served file's path.
 */
module ContentType {
  import opened Paths

  const DefaultContentType: string := "application/octet-stream"

  /**
   The lookup table, keyed by lower-case extension including its dot. This
   map is the reference copy of the table: GetContentType below follows the
   source's switch arm by arm, and its contract checks every arm against
   this map.
   */
  const ContentTypes: map<string, string> := map[
    ".html" := "text/html",
    ".css" := "text/css",
    ".js" := "application/javascript",
    ".png" := "image/png",
    ".jpg" := "image/jpeg",
    ".gif" := "image/gif"
  ]

  /** Invariant-culture lower-casing of one character, on the ASCII letters. */
  function ToLowerChar(c: char): char {
    if 'A' <= c <= 'Z' then (c as int + ('a' as int - 'A' as int)) as char else c
  }

  /** String.ToLowerInvariant, character by character. */
  function ToLowerInvariant(s: string): string {
    seq(|s|, i requires 0 <= i < |s| => ToLowerChar(s[i]))
  }

  /**
   Lower-casing keeps the length, turns each upper-case ASCII letter into
   its lower-case partner, keeps every other character, and leaves no
   upper-case ASCII letter behind.
   */
  lemma ToLowerInvariantLowers(s: string)
    ensures var r := ToLowerInvariant(s);
            && |r| == |s|
            && (forall i :: 0 <= i < |s| ==>
                  if 'A' <= s[i] <= 'Z' then r[i] as int == s[i] as int + 32 else r[i] == s[i])
            && forall i :: 0 <= i < |r| ==> !('A' <= r[i] <= 'Z')
  {
  }

  /**
   GetContentType(filePath): the extension of the path, lower-cased, looked
   up in a switch with a default arm, so every path gets a type.
   */
  function GetContentType(filePath: string): (mime: string)
    ensures var ext := ToLowerInvariant(GetExtension(filePath));
            if ext in ContentTypes then mime == ContentTypes[ext] else mime == DefaultContentType
  {
    var ext := ToLowerInvariant(GetExtension(filePath));
    match ext
    case ".html" => "text/html"
    case ".css" => "text/css"
    case ".js" => "application/javascript"
    case ".png" => "image/png"
    case ".jpg" => "image/jpeg"
    case ".gif" => "image/gif"
    case _ => DefaultContentType
  }

  /** Only the extension decides the content type. */
  lemma ContentTypeIsDefaultExactly(filePath: string)
    ensures GetContentType(filePath) == DefaultContentType
            <==> ToLowerInvariant(GetExtension(filePath)) !in ContentTypes
  {
    assert DefaultContentType !in ContentTypes.Values;
  }

  lemma ToLowerInvariantIdempotent(s: string)
    ensures ToLowerInvariant(ToLowerInvariant(s)) == ToLowerInvariant(s)
  {
  }

  /** Lower-casing keeps '.' and the separator where they are and adds none. */
  lemma ToLowerKeepsMarks(c: char)
    ensures ToLowerChar(c) == '.' <==> c == '.'
    ensures ToLowerChar(c) == DirectorySeparator <==> c == DirectorySeparator
  {
  }

  /** Taking the extension and lower-casing commute. */
  lemma {:induction false} GetExtensionOfLowered(path: string)
    ensures GetExtension(ToLowerInvariant(path)) == ToLowerInvariant(GetExtension(path))
  {
    var low := ToLowerInvariant(path);
    var e := GetExtension(path);
    if e != [] {
      var le := ToLowerInvariant(e);
      forall i | 0 <= i < |e| ensures le[i] == low[|path| - |e| + i] {
        assert e[i] == path[|path| - |e| + i];
      }
      forall i | 1 <= i < |le| ensures le[i] != '.' && le[i] != DirectorySeparator {
        ToLowerKeepsMarks(e[i]);
      }
      assert IsExtension(le, low);
      GetExtensionComplete(low, le);
    } else {
      var le := GetExtension(low);
      if le != [] {
        var orig := path[|path| - |le|..];
        forall i | 0 <= i < |orig| ensures le[i] == ToLowerChar(orig[i]) {
          assert le[i] == low[|path| - |le| + i];
        }
        forall i | 0 <= i < |orig|
          ensures (orig[i] == '.' <==> le[i] == '.')
          ensures (orig[i] == DirectorySeparator <==> le[i] == DirectorySeparator)
        {
          ToLowerKeepsMarks(orig[i]);
        }
        assert IsExtension(orig, path);
        GetExtensionComplete(path, orig);
        assert false;
      }
    }
  }

  /**
   The lookup is case-insensitive: a path and its lower-cased form get the
   same content type.
   */
  lemma ContentTypeIgnoresCase(filePath: string)
    ensures GetContentType(ToLowerInvariant(filePath)) == GetContentType(filePath)
  {
    GetExtensionOfLowered(filePath);
    ToLowerInvariantIdempotent(GetExtension(filePath));
  }

  /** Every key of the table is its own lower-case extension. */
  lemma TableKeyIsExtension(ext: string)
    requires ext in ContentTypes
    ensures IsExtension(ext, ext) && ToLowerInvariant(ext) == ext
  {
    assert ext in {".html", ".css", ".js", ".png", ".jpg", ".gif"};
  }

  /** Any file name ending in a table extension gets that extension's type. */
  lemma ContentTypeOfKnownExtension(stem: string, ext: string)
    requires ext in ContentTypes
    ensures GetContentType(stem + ext) == ContentTypes[ext]
  {
    TableKeyIsExtension(ext);
    GetExtensionOfSuffix(stem, ext);
    GetExtensionComplete(ext, ext);
  }

  /** The example of a case-insensitive lookup: FILE.PNG and file.png. */
  lemma UpperAndLowerPng()
    ensures GetContentType("FILE.PNG") == "image/png"
    ensures GetContentType("file.png") == "image/png"
  {
    ContentTypeOfKnownExtension("file", ".png");
    assert "file" + ".png" == "file.png";
    var low := ToLowerInvariant("FILE.PNG");
    forall i | 0 <= i < 8 ensures low[i] == "file.png"[i] {
      assert low[i] == ToLowerChar("FILE.PNG"[i]);
    }
    assert low == "file.png";
    ContentTypeIgnoresCase("FILE.PNG");
  }

  /** A path with no extension, or one ending in '.', gets the default. */
  lemma NoExtensionIsDefault(filePath: string)
    requires forall e :: !IsExtension(e, filePath)
    ensures GetContentType(filePath) == DefaultContentType
  {
  }
}
