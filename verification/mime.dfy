/** The MIME type of a served file, chosen by the extension of its path. */
module Mime {
  import opened Common
  import opened Text
  import opened Paths

  /** The fixed extension table: fourteen lower-case extensions. */
  const MimeMap: map<string, string> := map[
    "html" := "text/html",
    "htm" := "text/html",
    "shtml" := "text/html",
    "css" := "text/css",
    "xml" := "text/xml",
    "txt" := "text/plain",
    "gif" := "image/gif",
    "jpeg" := "image/jpeg",
    "jpg" := "image/jpeg",
    "png" := "image/png",
    "webp" := "image/webp",
    "js" := "application/javascript",
    "woff" := "font/woff",
    "woff2" := "font/woff2"
  ]

  /** Every MIME type the table can produce. */
  const MimeTypes: set<string> := {
    "text/html", "text/css", "text/xml", "text/plain",
    "image/gif", "image/jpeg", "image/png", "image/webp",
    "application/javascript", "font/woff", "font/woff2"
  }

  /** `mime_type_lookup`: the table entry for the ASCII-lower-cased extension
      of the path's final component, or `None` when there is no extension or
      no entry for it. */
  function Lookup(path: string): (r: Option<string>)
    ensures r.Some? ==> r.value in MimeTypes
    ensures r.Some? <==> Extension(path).Some? && AsciiLower(Extension(path).value) in MimeMap
  {
    match Extension(path)
    case None => None
    case Some(ext) =>
      var key := AsciiLower(ext);
      if key in MimeMap then Some(MimeMap[key]) else None
  }

  /** The table's keys are already lower case, so each key is matched by every
      case variant of itself and by nothing else. */
  lemma KeysAreLower()
    ensures forall k :: k in MimeMap ==> IsAsciiLower(k)
  {
    forall k | k in MimeMap
      ensures IsAsciiLower(k)
    {
      assert k in {"html", "htm", "shtml", "css", "xml", "txt", "gif", "jpeg", "jpg",
                   "png", "webp", "js", "woff", "woff2"};
    }
  }

  /** The lookup of `dir/stem.ext` is exactly the table entry for the
      lower-cased `ext`: no prefix or wildcard matching. */
  lemma LookupOfChild(dir: string, stem: string, ext: string)
    requires stem != "" && '.' !in ext
    requires ValidName(stem + "." + ext)
    ensures var key := AsciiLower(ext);
            Lookup(dir + "/" + (stem + "." + ext))
              == if key in MimeMap then Some(MimeMap[key]) else None
  {
    ExtensionOfChild(dir, stem, ext);
  }

  /** Two files whose extensions differ only in ASCII case get the same type. */
  lemma LookupIgnoresCase(dir: string, stem: string, ext: string, ext': string)
    requires stem != "" && '.' !in ext && '.' !in ext'
    requires ValidName(stem + "." + ext) && ValidName(stem + "." + ext')
    requires AsciiLower(ext) == AsciiLower(ext')
    ensures Lookup(dir + "/" + (stem + "." + ext)) == Lookup(dir + "/" + (stem + "." + ext'))
  {
    LookupOfChild(dir, stem, ext);
    LookupOfChild(dir, stem, ext');
  }

  /** A file name without an extension has no MIME type. */
  lemma LookupWithoutExtension(dir: string, name: string)
    requires ValidName(name) && '.' !in name[1..]
    ensures Lookup(dir + "/" + name) == None
  {
    NoExtensionOfChild(dir, name);
  }

  /** The aliases agree: `html`, `htm` and `shtml` are all `text/html`, and
      `jpeg` and `jpg` are both `image/jpeg`, in any letter case. */
  lemma Aliases(dir: string, stem: string, ext: string)
    requires stem != "" && '.' !in ext
    requires ValidName(stem + "." + ext)
    ensures AsciiLower(ext) in {"html", "htm", "shtml"} ==>
              Lookup(dir + "/" + (stem + "." + ext)) == Some("text/html")
    ensures AsciiLower(ext) in {"jpeg", "jpg"} ==>
              Lookup(dir + "/" + (stem + "." + ext)) == Some("image/jpeg")
  {
    LookupOfChild(dir, stem, ext);
  }

  /** `/tmp/1.html` is `text/html`. */
  lemma LookupHtml()
    ensures Lookup("/tmp/1.html") == Some("text/html")
  {
    assert "/tmp/1.html" == "/tmp" + "/" + ("1" + "." + "html");
    assert AsciiLower("html") == "html";
    LookupOfChild("/tmp", "1", "html");
  }

  /** `/tmp/1.HTmL` is `text/html` too. */
  lemma LookupMixedCase()
    ensures Lookup("/tmp/1.HTmL") == Some("text/html")
  {
    assert "/tmp/1.HTmL" == "/tmp" + "/" + ("1" + "." + "HTmL");
    assert AsciiLower("HTmL") == "html";
    LookupOfChild("/tmp", "1", "HTmL");
  }

  /** `/tmp/1.lol` has no type. */
  lemma LookupUnknown()
    ensures Lookup("/tmp/1.lol") == None
  {
    assert "/tmp/1.lol" == "/tmp" + "/" + ("1" + "." + "lol");
    assert AsciiLower("lol") == "lol";
    assert "lol" !in MimeMap;
    LookupOfChild("/tmp", "1", "lol");
  }

  /** `/tmp/1.htmlx` has no type: its extension merely starts with a known one. */
  lemma LookupNoPrefixMatch()
    ensures Lookup("/tmp/1.htmlx") == None
  {
    assert "/tmp/1.htmlx" == "/tmp" + "/" + ("1" + "." + "htmlx");
    assert AsciiLower("htmlx") == "htmlx";
    assert "htmlx" !in MimeMap;
    LookupOfChild("/tmp", "1", "htmlx");
  }

  /** `/tmp/just_file` has no type. */
  lemma LookupNoExtension()
    ensures Lookup("/tmp/just_file") == None
  {
    assert "/tmp/just_file" == "/tmp" + "/" + "just_file";
    LookupWithoutExtension("/tmp", "just_file");
  }
}
